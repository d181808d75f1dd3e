/** A user's images: replacing them, choosing the default one, deleting one. The image of order 0 is the avatar. */
module Images {
  import opened Wrappers

  datatype Image = Image(id: nat, userId: string, url: string, order: Option<nat>)

  /** An image of an update request: a known one by id, or a new one. */
  datatype Upload = Upload(id: Option<nat>, url: string)

  // ---------------------------------------------------------------- the repository

  function FindId(rows: seq<Image>, id: nat): (r: Option<nat>)
    ensures r.Some? ==> r.value < |rows| && rows[r.value].id == id
    ensures r.None? ==> forall i :: 0 <= i < |rows| ==> rows[i].id != id
  {
    if rows == [] then None
    else if rows[|rows| - 1].id == id then Some(|rows| - 1)
    else FindId(rows[..|rows| - 1], id)
  }

  /** save: overwrite the row with the id, or insert. */
  function Save(rows: seq<Image>, image: Image): seq<Image> {
    match FindId(rows, image.id)
    case Some(i) => rows[i := image]
    case None => rows + [image]
  }

  function SaveAll(rows: seq<Image>, images: seq<Image>): seq<Image> {
    if images == [] then rows else Save(SaveAll(rows, images[..|images| - 1]), images[|images| - 1])
  }

  function Keep(rows: seq<Image>, keeps: Image -> bool): seq<Image> {
    if rows == [] then []
    else Keep(rows[..|rows| - 1], keeps) + if keeps(rows[|rows| - 1]) then [rows[|rows| - 1]] else []
  }

  // ---------------------------------------------------------------- the operations

  function OwnedBy(user: string): Image -> bool { (r: Image) => r.userId == user }

  function Except(id: nat): Image -> bool { (r: Image) => r.id != id }

  function NotDropped(user: string, uploads: seq<Upload>): Image -> bool {
    (r: Image) => r.userId != user || exists k :: 0 <= k < |uploads| && uploads[k].id == Some(r.id)
  }

  /** updateUserImages deletes the user's images that the request does not name ... */
  function Pruned(rows: seq<Image>, user: string, uploads: seq<Upload>): seq<Image> {
    Keep(rows, NotDropped(user, uploads))
  }

  /** A bound above every id in use; new images get fresh ids from it on. */
  function FreshId(rows: seq<Image>, uploads: seq<Upload>): (n: nat)
    ensures forall i :: 0 <= i < |rows| ==> rows[i].id < n
    ensures forall k :: 0 <= k < |uploads| && uploads[k].id.Some? ==> uploads[k].id.value < n
    decreases |rows| + |uploads|
  {
    if rows != [] then
      var n := FreshId(rows[..|rows| - 1], uploads);
      if rows[|rows| - 1].id < n then n else rows[|rows| - 1].id + 1
    else if uploads != [] then
      var n := FreshId(rows, uploads[..|uploads| - 1]);
      var last := uploads[|uploads| - 1].id;
      if last.None? || last.value < n then n else last.value + 1
    else 0
  }

  /** ... and saves the named ones, numbered by their place in the request. */
  function Numbered(user: string, uploads: seq<Upload>, newIds: nat): seq<Image> {
    seq(|uploads|, k requires 0 <= k < |uploads| =>
      Image(if uploads[k].id.Some? then uploads[k].id.value else newIds + k, user, uploads[k].url, Some(k)))
  }

  function Replaced(rows: seq<Image>, user: string, uploads: seq<Upload>): seq<Image> {
    SaveAll(Pruned(rows, user, uploads), Numbered(user, uploads, FreshId(rows, uploads)))
  }

  function OfUser(rows: seq<Image>, user: string): seq<Image> { Keep(rows, OwnedBy(user)) }

  function Renumbered(images: seq<Image>, from: nat): seq<Image> {
    seq(|images|, k requires 0 <= k < |images| => images[k].(order := Some(from + k)))
  }

  /** setUserImageAsDefault: the chosen image first, the others after it in their old sequence. */
  function Reordered(images: seq<Image>, chosen: Image): seq<Image> {
    [chosen.(order := Some(0))] + Renumbered(Keep(images, Except(chosen.id)), 1)
  }

  function WithDefault(rows: seq<Image>, user: string, id: nat): seq<Image> {
    var images := OfUser(rows, user);
    match FindId(images, id)
    case None => rows
    case Some(k) => SaveAll(rows, Reordered(images, images[k]))
  }

  function Deleted(rows: seq<Image>, user: string, id: nat): seq<Image> {
    if exists i :: 0 <= i < |rows| && rows[i].id == id && rows[i].userId == user
    then Keep(rows, Except(id))
    else rows
  }

  datatype Event =
    | Replace(user: string, uploads: seq<Upload>)
    | SetDefault(user: string, id: nat)
    | Delete(user: string, id: nat)

  function Step(rows: seq<Image>, e: Event): seq<Image> {
    match e
    case Replace(user, uploads) => Replaced(rows, user, uploads)
    case SetDefault(user, id) => WithDefault(rows, user, id)
    case Delete(user, id) => Deleted(rows, user, id)
  }

  function Run(rows: seq<Image>, es: seq<Event>): seq<Image> {
    if es == [] then rows else Step(Run(rows, es[..|es| - 1]), es[|es| - 1])
  }

  // ---------------------------------------------------------------- what holds of the table

  predicate DistinctIds(rows: seq<Image>) { forall i, j :: 0 <= i < j < |rows| ==> rows[i].id != rows[j].id }

  /** Two images of a user with the same order are one image. */
  predicate DistinctOrders(rows: seq<Image>) {
    forall r, s ::
      r in rows && s in rows && r.userId == s.userId && r.order == s.order && r.order.Some? ==> r.id == s.id
  }

  lemma {:induction false} KeepIs(rows: seq<Image>, keeps: Image -> bool, r: Image)
    ensures r in Keep(rows, keeps) <==> r in rows && keeps(r)
  {
    if rows != [] {
      KeepIs(rows[..|rows| - 1], keeps, r);
      assert rows == rows[..|rows| - 1] + [rows[|rows| - 1]];
    }
  }

  lemma {:induction false} KeepDistinct(rows: seq<Image>, keeps: Image -> bool)
    requires DistinctIds(rows)
    ensures DistinctIds(Keep(rows, keeps))
  {
    if rows != [] {
      var last := |rows| - 1;
      KeepDistinct(rows[..last], keeps);
      var kept := Keep(rows[..last], keeps);
      forall i | 0 <= i < |kept| ensures kept[i].id != rows[last].id { KeepIs(rows[..last], keeps, kept[i]); }
    }
  }

  predicate HasId(images: seq<Image>, id: nat) { exists k :: 0 <= k < |images| && images[k].id == id }

  /** The last of the images with an id. */
  function LastWith(images: seq<Image>, id: nat): Image
    requires HasId(images, id)
  {
    images[FindId(images, id).value]
  }

  lemma SaveKeepsDistinct(rows: seq<Image>, image: Image)
    requires DistinctIds(rows)
    ensures DistinctIds(Save(rows, image))
    ensures forall r :: r in Save(rows, image) <==> r == image || (r in rows && r.id != image.id)
  {
    var next := Save(rows, image);
    match FindId(rows, image.id)
    case Some(i) =>
      assert next[i] == image;
      forall r | r in rows && r.id != image.id ensures r in next {
        var k :| 0 <= k < |rows| && rows[k] == r;
        assert next[k] == r;
      }
    case None =>
  }

  /** After saving a list, a row is the last saved one of its id, or an old row of an id that was not saved. */
  lemma {:induction false} SaveAllIs(rows: seq<Image>, images: seq<Image>)
    requires DistinctIds(rows)
    ensures DistinctIds(SaveAll(rows, images))
    ensures forall r ::
              r in SaveAll(rows, images) <==> if HasId(images, r.id) then r == LastWith(images, r.id) else r in rows
  {
    if images != [] {
      var n := |images| - 1;
      var init, last := images[..n], images[n];
      SaveAllIs(rows, init);
      SaveKeepsDistinct(SaveAll(rows, init), last);
      forall r: Image
        ensures r in SaveAll(rows, images) <==> if HasId(images, r.id) then r == LastWith(images, r.id) else r in rows
      {
        LastOfSnoc(images, r.id);
      }
    }
  }

  lemma LastOfSnoc(images: seq<Image>, id: nat)
    requires images != []
    ensures var init, last := images[..|images| - 1], images[|images| - 1];
            && (HasId(images, id) <==> HasId(init, id) || id == last.id)
            && (HasId(images, id) ==> LastWith(images, id) == if id == last.id then last else LastWith(init, id))
  {
    var n := |images| - 1;
    if k :| 0 <= k < n && images[..n][k].id == id { assert images[k].id == id; }
    if k :| 0 <= k <= n && images[k].id == id { assert k < n ==> images[..n][k].id == id; }
  }

  /** The user's rows are all saved again, each numbered by its place in the list. */
  predicate Renumbers(rows: seq<Image>, images: seq<Image>, user: string) {
    && (forall k :: 0 <= k < |images| ==> images[k].userId == user && images[k].order == Some(k))
    && (forall r :: r in rows && r.userId == user ==> HasId(images, r.id))
  }

  lemma RenumberingKeepsDistinct(rows: seq<Image>, images: seq<Image>, user: string)
    requires DistinctIds(rows) && DistinctOrders(rows) && Renumbers(rows, images, user)
    ensures DistinctIds(SaveAll(rows, images)) && DistinctOrders(SaveAll(rows, images))
  {
    SaveAllIs(rows, images);
    var next := SaveAll(rows, images);
    forall r, s | r in next && s in next && r.userId == s.userId && r.order == s.order && r.order.Some?
      ensures r.id == s.id
    {
      if r.userId == user {
        assert HasId(images, r.id) && HasId(images, s.id);
      } else {
        assert r in rows && s in rows;
      }
    }
  }

  // ---------------------------------------------------------------- runs

  lemma ReplaceRenumbers(rows: seq<Image>, user: string, uploads: seq<Upload>)
    ensures Renumbers(Pruned(rows, user, uploads), Numbered(user, uploads, FreshId(rows, uploads)), user)
  {
    var keeps := NotDropped(user, uploads);
    var images := Numbered(user, uploads, FreshId(rows, uploads));
    forall r | r in Pruned(rows, user, uploads) && r.userId == user ensures HasId(images, r.id) {
      KeepIs(rows, keeps, r);
      var k :| 0 <= k < |uploads| && uploads[k].id == Some(r.id);
      assert images[k].id == r.id;
    }
  }

  lemma KeepKeepsOrders(rows: seq<Image>, keeps: Image -> bool)
    requires DistinctIds(rows) && DistinctOrders(rows)
    ensures DistinctIds(Keep(rows, keeps)) && DistinctOrders(Keep(rows, keeps))
  {
    KeepDistinct(rows, keeps);
    forall r | r in Keep(rows, keeps) ensures r in rows { KeepIs(rows, keeps, r); }
  }

  lemma ReorderedRenumbers(rows: seq<Image>, user: string, k: nat)
    requires k < |OfUser(rows, user)|
    ensures Renumbers(rows, Reordered(OfUser(rows, user), OfUser(rows, user)[k]), user)
  {
    var images := OfUser(rows, user);
    var others := Keep(images, Except(images[k].id));
    var list := Reordered(images, images[k]);
    forall j | 0 <= j < |list| ensures list[j].userId == user && list[j].order == Some(j) {
      if j > 0 {
        KeepIs(images, Except(images[k].id), others[j - 1]);
        KeepIs(rows, OwnedBy(user), others[j - 1]);
      } else {
        KeepIs(rows, OwnedBy(user), images[k]);
      }
    }
    forall r | r in rows && r.userId == user ensures HasId(list, r.id) {
      KeepIs(rows, OwnedBy(user), r);
      KeepIs(images, Except(images[k].id), r);
      if r.id == images[k].id {
        assert list[0].id == r.id;
      } else {
        var j :| 0 <= j < |others| && others[j] == r;
        assert list[j + 1].id == r.id;
      }
    }
  }

  lemma StepKeepsDistinct(rows: seq<Image>, e: Event)
    requires DistinctIds(rows) && DistinctOrders(rows)
    ensures DistinctIds(Step(rows, e)) && DistinctOrders(Step(rows, e))
  {
    match e
    case Replace(user, uploads) =>
      KeepKeepsOrders(rows, NotDropped(user, uploads));
      ReplaceRenumbers(rows, user, uploads);
      RenumberingKeepsDistinct(Pruned(rows, user, uploads), Numbered(user, uploads, FreshId(rows, uploads)), user);
    case SetDefault(user, id) =>
      var images := OfUser(rows, user);
      var k := FindId(images, id);
      if k.Some? {
        ReorderedRenumbers(rows, user, k.value);
        RenumberingKeepsDistinct(rows, Reordered(images, images[k.value]), user);
      }
    case Delete(user, id) =>
      KeepKeepsOrders(rows, Except(id));
  }

  /** Over every run a user's image orders stay distinct, whatever the requests name: so at most one avatar each. */
  lemma {:induction false} OrdersStayDistinct(rows: seq<Image>, es: seq<Event>)
    requires DistinctIds(rows) && DistinctOrders(rows)
    ensures DistinctIds(Run(rows, es)) && DistinctOrders(Run(rows, es))
  {
    if es != [] {
      OrdersStayDistinct(rows, es[..|es| - 1]);
      StepKeepsDistinct(Run(rows, es[..|es| - 1]), es[|es| - 1]);
    }
  }

  lemma OneAvatar(rows: seq<Image>, es: seq<Event>, i: nat, j: nat)
    requires DistinctIds(rows) && DistinctOrders(rows)
    requires i < |Run(rows, es)| && j < |Run(rows, es)|
    requires Run(rows, es)[i].userId == Run(rows, es)[j].userId
    requires Run(rows, es)[i].order == Run(rows, es)[j].order == Some(0)
    ensures i == j
  {
    OrdersStayDistinct(rows, es);
    var after := Run(rows, es);
    assert after[i].id == after[j].id;
  }

  // ---------------------------------------------------------------- replace

  /** The request names the k-th image's id nowhere after it. */
  predicate NamedLast(uploads: seq<Upload>, k: nat)
    requires k < |uploads|
  {
    uploads[k].id.Some? ==> forall j :: k < j < |uploads| ==> uploads[j].id != uploads[k].id
  }

  /** The row holds the k-th image of the request: its place, its url, and its id or else one never used before. */
  predicate Fulfils(rows: seq<Image>, user: string, uploads: seq<Upload>, k: nat, r: Image)
    requires k < |uploads|
  {
    && r.userId == user && r.order == Some(k) && r.url == uploads[k].url
    && match uploads[k].id
       case Some(id) => r.id == id
       case None => !HasId(rows, r.id) && forall j :: 0 <= j < |uploads| ==> uploads[j].id != Some(r.id)
  }

  lemma NumberedFulfils(rows: seq<Image>, user: string, uploads: seq<Upload>, k: nat)
    requires k < |uploads|
    ensures Fulfils(rows, user, uploads, k, Numbered(user, uploads, FreshId(rows, uploads))[k])
  {}

  /**
   After a replacement the user's images are exactly those of the request, each with its own url and numbered by its
   place in it; an id named twice keeps its last place.
   */
  lemma ReplaceGivesRequest(rows: seq<Image>, user: string, uploads: seq<Upload>)
    requires DistinctIds(rows)
    ensures var next := Replaced(rows, user, uploads);
            && DistinctIds(next)
            && (forall r :: r in next && r.userId == user ==>
                  exists k :: 0 <= k < |uploads| && NamedLast(uploads, k) && Fulfils(rows, user, uploads, k, r))
            && (forall k :: 0 <= k < |uploads| && NamedLast(uploads, k) ==>
                  exists r :: r in next && Fulfils(rows, user, uploads, k, r))
  {
    var list, next := Numbered(user, uploads, FreshId(rows, uploads)), Replaced(rows, user, uploads);
    KeepDistinct(rows, NotDropped(user, uploads));
    SaveAllIs(Pruned(rows, user, uploads), list);
    forall r | r in next && r.userId == user
      ensures exists k :: 0 <= k < |uploads| && NamedLast(uploads, k) && Fulfils(rows, user, uploads, k, r)
    {
      ReplacedIsNumbered(rows, user, uploads, r);
      var k :| 0 <= k < |uploads| && NamedLast(uploads, k) && r == list[k];
      NumberedFulfils(rows, user, uploads, k);
    }
    forall k | 0 <= k < |uploads| && NamedLast(uploads, k)
      ensures exists r :: r in next && Fulfils(rows, user, uploads, k, r)
    {
      ReplacedIsNumbered(rows, user, uploads, list[k]);
      NumberedFulfils(rows, user, uploads, k);
    }
  }

  lemma ReplacedIsNumbered(rows: seq<Image>, user: string, uploads: seq<Upload>, r: Image)
    requires DistinctIds(rows) && r.userId == user
    ensures var list := Numbered(user, uploads, FreshId(rows, uploads));
            r in Replaced(rows, user, uploads)
            <==> exists k :: 0 <= k < |uploads| && NamedLast(uploads, k) && r == list[k]
  {
    var list, pruned := Numbered(user, uploads, FreshId(rows, uploads)), Pruned(rows, user, uploads);
    KeepDistinct(rows, NotDropped(user, uploads));
    SaveAllIs(pruned, list);
    ReplaceRenumbers(rows, user, uploads);
    forall k | 0 <= k < |uploads|
      ensures NamedLast(uploads, k) <==> FindId(list, list[k].id) == Some(k)
    {
      LastOfRequest(rows, user, uploads, k);
    }
    if r in Replaced(rows, user, uploads) {
      assert HasId(list, r.id);
      assert r == list[FindId(list, r.id).value];
    }
  }

  lemma LastOfRequest(rows: seq<Image>, user: string, uploads: seq<Upload>, k: nat)
    requires k < |uploads|
    ensures var list := Numbered(user, uploads, FreshId(rows, uploads));
            NamedLast(uploads, k) <==> FindId(list, list[k].id) == Some(k)
  {
    var list := Numbered(user, uploads, FreshId(rows, uploads));
    FindsLast(list, list[k].id);
    var f := FindId(list, list[k].id).value;
    if NamedLast(uploads, k) {
      assert list[f].id == list[k].id;
    } else {
      var j :| k < j < |uploads| && uploads[j].id == uploads[k].id;
      assert list[j].id == list[k].id;
    }
  }

  lemma {:induction false} FindsLast(images: seq<Image>, id: nat)
    ensures var f := FindId(images, id); f.Some? ==> forall j :: f.value < j < |images| ==> images[j].id != id
  {
    if images != [] && images[|images| - 1].id != id { FindsLast(images[..|images| - 1], id); }
  }

  /** Another user's image stays exactly when the request does not name its id. */
  lemma ReplaceKeepsUnnamed(rows: seq<Image>, user: string, uploads: seq<Upload>, r: Image)
    requires DistinctIds(rows) && r.userId != user
    ensures r in Replaced(rows, user, uploads)
            <==> r in rows && forall k :: 0 <= k < |uploads| ==> uploads[k].id != Some(r.id)
  {
    var list := Numbered(user, uploads, FreshId(rows, uploads));
    KeepDistinct(rows, NotDropped(user, uploads));
    SaveAllIs(Pruned(rows, user, uploads), list);
    KeepIs(rows, NotDropped(user, uploads), r);
    if HasId(list, r.id) {
      var f := FindId(list, r.id).value;
      assert list[f].userId == user;
      if r in rows { assert uploads[f].id == Some(r.id); }
    } else {
      forall k | 0 <= k < |uploads| ensures uploads[k].id != Some(r.id) { assert list[k].id != r.id; }
    }
  }

  // ---------------------------------------------------------------- set-default

  lemma {:induction false} RemoveOne(images: seq<Image>, chosen: nat)
    requires DistinctIds(images) && HasId(images, chosen)
    ensures |Keep(images, Except(chosen))| == |images| - 1
  {
    var last := |images| - 1;
    if images[last].id == chosen {
      KeepAll(images[..last], chosen);
    } else {
      var k :| 0 <= k < |images| && images[k].id == chosen;
      assert images[..last][k].id == chosen;
      RemoveOne(images[..last], chosen);
    }
  }

  lemma {:induction false} KeepAll(images: seq<Image>, chosen: nat)
    requires !HasId(images, chosen)
    ensures Keep(images, Except(chosen)) == images
  {
    if images != [] {
      var last := |images| - 1;
      assert images[last].id != chosen;
      forall k | 0 <= k < last ensures images[..last][k].id != chosen { assert images[k].id != chosen; }
      KeepAll(images[..last], chosen);
    }
  }

  lemma OfUserIs(rows: seq<Image>, user: string)
    ensures forall r :: r in OfUser(rows, user) <==> r in rows && r.userId == user
  {
    forall r: Image ensures r in OfUser(rows, user) <==> r in rows && r.userId == user {
      KeepIs(rows, OwnedBy(user), r);
    }
  }

  /** The list setUserImageAsDefault saves for a chosen image the user has. */
  function DefaultList(rows: seq<Image>, user: string, id: nat): seq<Image>
    requires HasId(OfUser(rows, user), id)
  {
    Reordered(OfUser(rows, user), OfUser(rows, user)[FindId(OfUser(rows, user), id).value])
  }

  lemma AboutDefaultList(rows: seq<Image>, user: string, id: nat)
    requires DistinctIds(rows) && HasId(OfUser(rows, user), id)
    ensures var images, list := OfUser(rows, user), DefaultList(rows, user, id);
            && WithDefault(rows, user, id) == SaveAll(rows, list)
            && |list| == |images| && DistinctIds(list) && Renumbers(rows, list, user)
            && list[0].id == id
            && forall j :: 0 <= j < |list| ==> OneOf(images, list[j])
  {
    var images := OfUser(rows, user);
    var k := FindId(images, id).value;
    KeepDistinct(rows, OwnedBy(user));
    RemoveOne(images, id);
    ReorderedRenumbers(rows, user, k);
    ListIsOfImages(images, k);
  }

  /**
   Whatever the orders were, choosing a default image gives each of the user's n images a number below n, the chosen
   one 0, and changes nothing else in it.
   */
  lemma SetDefaultNumbers(rows: seq<Image>, user: string, id: nat, r: Image)
    requires DistinctIds(rows) && HasId(OfUser(rows, user), id)
    requires r in WithDefault(rows, user, id) && r.userId == user
    ensures r.order.Some? && r.order.value < |OfUser(rows, user)|
    ensures r.order.value == 0 <==> r.id == id
    ensures OneOf(OfUser(rows, user), r)
  {
    var list := DefaultList(rows, user, id);
    AboutDefaultList(rows, user, id);
    SaveAllIs(rows, list);
    assert HasId(list, r.id);
    var j := FindId(list, r.id).value;
    assert r == list[j];
    if r.id == id { assert j == 0; }
  }

  /** No image of the user is lost or doubled. */
  lemma SetDefaultLosesNone(rows: seq<Image>, user: string, id: nat, was: Image)
    requires DistinctIds(rows) && HasId(OfUser(rows, user), id)
    requires was in rows && was.userId == user
    ensures DistinctIds(WithDefault(rows, user, id)) && HasId(WithDefault(rows, user, id), was.id)
  {
    var list := DefaultList(rows, user, id);
    AboutDefaultList(rows, user, id);
    SaveAllIs(rows, list);
    assert LastWith(list, was.id) in SaveAll(rows, list);
  }

  /** Each number below n is used by one of the user's images, and by no second one. */
  lemma SetDefaultUsesNumberOnce(rows: seq<Image>, user: string, id: nat, k: nat)
    requires DistinctIds(rows) && HasId(OfUser(rows, user), id) && k < |OfUser(rows, user)|
    ensures var next := WithDefault(rows, user, id);
            && Numbers(next, user, k)
            && forall r, s ::
                 (r in next && s in next && r.userId == s.userId == user && r.order == s.order == Some(k)) ==> r == s
  {
    var list, next := DefaultList(rows, user, id), WithDefault(rows, user, id);
    AboutDefaultList(rows, user, id);
    NumberIsUsed(rows, OfUser(rows, user), list, k);
    assert list[k] in next && list[k].userId == user && list[k].order == Some(k);
    forall r | r in next && r.userId == user && r.order == Some(k) ensures r == list[k] {
      SetDefaultRow(rows, user, id, r);
    }
  }

  lemma SetDefaultRow(rows: seq<Image>, user: string, id: nat, r: Image)
    requires DistinctIds(rows) && HasId(OfUser(rows, user), id)
    requires r in WithDefault(rows, user, id) && r.userId == user
    ensures var list := DefaultList(rows, user, id); r.order.Some? && r.order.value < |list| && r == list[r.order.value]
  {
    var list := DefaultList(rows, user, id);
    AboutDefaultList(rows, user, id);
    SaveAllIs(rows, list);
    assert HasId(list, r.id);
    assert r == list[FindId(list, r.id).value];
  }

  predicate Numbers(rows: seq<Image>, user: string, k: nat) {
    exists r :: r in rows && r.userId == user && r.order == Some(k)
  }

  /** Where the kept rows stood: at increasing places. */
  lemma {:induction false} KeepsSequence(rows: seq<Image>, keeps: Image -> bool) returns (at: seq<nat>)
    ensures |at| == |Keep(rows, keeps)|
    ensures forall j, k :: 0 <= j < k < |at| ==> at[j] < at[k]
    ensures forall j :: 0 <= j < |at| ==> at[j] < |rows| && Keep(rows, keeps)[j] == rows[at[j]]
  {
    at := [];
    if rows != [] {
      var last := |rows| - 1;
      at := KeepsSequence(rows[..last], keeps);
      if keeps(rows[last]) { at := at + [last]; }
    }
  }

  /** Two rows that are kept appear in the sequence they had. */
  lemma KeptInSequence(rows: seq<Image>, keeps: Image -> bool, i: nat, j: nat) returns (p: nat, q: nat)
    requires DistinctIds(rows) && i < j < |rows| && keeps(rows[i]) && keeps(rows[j])
    ensures p < q < |Keep(rows, keeps)| && Keep(rows, keeps)[p] == rows[i] && Keep(rows, keeps)[q] == rows[j]
  {
    KeepIs(rows, keeps, rows[i]);
    KeepIs(rows, keeps, rows[j]);
    p :| p < |Keep(rows, keeps)| && Keep(rows, keeps)[p] == rows[i];
    q :| q < |Keep(rows, keeps)| && Keep(rows, keeps)[q] == rows[j];
    var at := KeepsSequence(rows, keeps);
    assert rows[at[p]].id == rows[i].id && rows[at[q]].id == rows[j].id;
    assert at[p] == i && at[q] == j;
  }

  /** Behind the chosen image the others keep the sequence they were loaded in. */
  lemma SetDefaultKeepsSequence(rows: seq<Image>, user: string, id: nat, i: nat, j: nat) returns (p: nat, q: nat)
    requires DistinctIds(rows) && HasId(OfUser(rows, user), id) && i < j < |OfUser(rows, user)|
    requires OfUser(rows, user)[i].id != id && OfUser(rows, user)[j].id != id
    ensures 0 < p < q
    ensures OfUser(rows, user)[i].(order := Some(p)) in WithDefault(rows, user, id)
    ensures OfUser(rows, user)[j].(order := Some(q)) in WithDefault(rows, user, id)
  {
    KeepDistinct(rows, OwnedBy(user));
    p, q := ReorderedInSequence(OfUser(rows, user), FindId(OfUser(rows, user), id).value, i, j);
    DefaultListSaved(rows, user, id, p);
    DefaultListSaved(rows, user, id, q);
  }

  lemma ReorderedInSequence(images: seq<Image>, k: nat, i: nat, j: nat) returns (p: nat, q: nat)
    requires DistinctIds(images) && k < |images| && i < j < |images|
    requires images[i].id != images[k].id && images[j].id != images[k].id
    ensures var list := Reordered(images, images[k]);
            0 < p < q < |list| && list[p] == images[i].(order := Some(p)) && list[q] == images[j].(order := Some(q))
  {
    p, q := KeptInSequence(images, Except(images[k].id), i, j);
    p, q := p + 1, q + 1;
  }

  lemma DefaultListSaved(rows: seq<Image>, user: string, id: nat, p: nat)
    requires DistinctIds(rows) && HasId(OfUser(rows, user), id) && p < |DefaultList(rows, user, id)|
    ensures DefaultList(rows, user, id)[p] in WithDefault(rows, user, id)
  {
    AboutDefaultList(rows, user, id);
    NumberIsUsed(rows, OfUser(rows, user), DefaultList(rows, user, id), p);
  }

  /** Other users' images are untouched. */
  lemma SetDefaultTouchesNoOneElse(rows: seq<Image>, user: string, id: nat, r: Image)
    requires DistinctIds(rows) && HasId(OfUser(rows, user), id) && r.userId != user
    ensures r in WithDefault(rows, user, id) <==> r in rows
  {
    AboutDefaultList(rows, user, id);
    OfUserIs(rows, user);
    OthersUntouched(rows, OfUser(rows, user), DefaultList(rows, user, id), r, user);
  }

  predicate OneOf(images: seq<Image>, r: Image) { exists was :: was in images && r == was.(order := r.order) }

  lemma ListIsOfImages(images: seq<Image>, k: nat)
    requires k < |images| && DistinctIds(images)
    ensures var list := Reordered(images, images[k]);
            && DistinctIds(list)
            && (forall j :: 0 <= j < |list| ==> OneOf(images, list[j]))
            && (forall j :: 0 < j < |list| ==> list[j].id != images[k].id)
  {
    var list := Reordered(images, images[k]);
    var others := Keep(images, Except(images[k].id));
    KeepDistinct(images, Except(images[k].id));
    forall j | 0 <= j < |list|
      ensures OneOf(images, list[j]) && (j > 0 ==> list[j].id != images[k].id)
    {
      if j == 0 {
        assert images[k] in images && list[j] == images[k].(order := list[j].order);
      } else {
        KeepIs(images, Except(images[k].id), others[j - 1]);
        assert list[j] == others[j - 1].(order := list[j].order);
      }
    }
    forall i, j | 0 <= i < j < |list| ensures list[i].id != list[j].id {
      if i > 0 { assert others[i - 1].id != others[j - 1].id; }
    }
  }

  lemma OthersUntouched(rows: seq<Image>, images: seq<Image>, list: seq<Image>, r: Image, user: string)
    requires DistinctIds(rows) && forall i :: i in images ==> i in rows && i.userId == user
    requires forall j :: 0 <= j < |list| ==> OneOf(images, list[j])
    ensures r in SaveAll(rows, list) && r.userId != user <==> r in rows && r.userId != user
  {
    SaveAllIs(rows, list);
    if HasId(list, r.id) {
      var j := FindId(list, r.id).value;
      assert OneOf(images, list[j]);
      var was :| was in images && list[j] == was.(order := list[j].order);
      if r in rows { SameIdSameRow(rows, r, was); }
    }
  }

  lemma SameIdSameRow(rows: seq<Image>, r: Image, s: Image)
    requires DistinctIds(rows) && r in rows && s in rows && r.id == s.id
    ensures r == s
  {
    var i :| 0 <= i < |rows| && rows[i] == r;
    var j :| 0 <= j < |rows| && rows[j] == s;
    assert i == j;
  }

  lemma NumberIsUsed(rows: seq<Image>, images: seq<Image>, list: seq<Image>, m: nat)
    requires DistinctIds(rows) && DistinctIds(list) && m < |list|
    ensures list[m] in SaveAll(rows, list)
  {
    SaveAllIs(rows, list);
    assert list[m].id == list[m].id && HasId(list, list[m].id);
    var j := FindId(list, list[m].id).value;
    assert j == m;
  }

  // ---------------------------------------------------------------- the services

  class ImageTable {
    var rows: seq<Image>

    method SaveList(images: seq<Image>)
      modifies this
      ensures rows == SaveAll(old(rows), images)
    {
      var k := 0;
      assert images[..0] == [];
      while k < |images|
        invariant 0 <= k <= |images|
        invariant rows == SaveAll(old(rows), images[..k])
      {
        assert images[..k + 1][..k] == images[..k];
        rows := Save(rows, images[k]);
        k := k + 1;
      }
      assert images[..k] == images;
    }

    method UpdateUserImages(user: string, uploads: seq<Upload>)
      modifies this
      ensures rows == Step(old(rows), Replace(user, uploads))
      ensures DistinctIds(old(rows)) ==>
                forall k :: 0 <= k < |uploads| && NamedLast(uploads, k) ==>
                  exists r :: r in rows && Fulfils(old(rows), user, uploads, k, r)
    {
      ghost var before := rows;
      if DistinctIds(before) { ReplaceGivesRequest(before, user, uploads); }
      var newIds := FreshId(rows, uploads);
      rows := Pruned(rows, user, uploads);
      SaveList(Numbered(user, uploads, newIds));
    }

    method SetUserImageAsDefault(user: string, id: nat) returns (r: Result<bool>)
      modifies this
      ensures rows == Step(old(rows), SetDefault(user, id))
      ensures r == if HasId(OfUser(old(rows), user), id) then Ok(true) else Err(NotFound)
    {
      var images := OfUser(rows, user);
      var found := FindId(images, id);
      if found.None? {
        return Err(NotFound);
      }
      SaveList(Reordered(images, images[found.value]));
      return Ok(true);
    }

    method DeleteUserImageById(user: string, id: nat) returns (r: Result<bool>)
      modifies this
      ensures rows == Step(old(rows), Delete(user, id))
      ensures r == if exists i :: 0 <= i < |old(rows)| && old(rows)[i].id == id && old(rows)[i].userId == user
                   then Ok(true) else Err(NotFound)
      ensures forall x :: x in rows <==> x in old(rows) && (r.Ok? ==> x.id != id)
    {
      var isExist := exists i :: 0 <= i < |rows| && rows[i].id == id && rows[i].userId == user;
      if !isExist {
        return Err(NotFound);
      }
      rows := Keep(rows, Except(id));
      forall x: Image ensures x in rows <==> x in old(rows) && x.id != id { KeepIs(old(rows), Except(id), x); }
      return Ok(true);
    }
  }
}

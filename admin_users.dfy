/**
 * The admin side's changes to users' activity: resetting one button for
 * every user, toggling a button for one user, deleting a user's data, and
 * the rows of the per-user CSV export.
 */
module AdminUsers {
  import opened Php
  import opened Common
  import opened PublicActivity

  // ---------------------------------------------------------------------
  // Resetting a button for every user
  // ---------------------------------------------------------------------

  /** A user's stored activity once `reset_button` has handled them. */
  ghost function ResetValue(activity: map<UserId, Activity>, legacy: map<UserId, Legacy>, v: UserId,
                            button: ButtonId, now: nat): Activity
  {
    var a := CurrentActivity(activity, legacy, v);
    if button in a then WithSiteStamp(a - {button}, now)
    else if v in activity then activity[v]
    else WithSiteStamp(a, now)
  }

  /** The users, in order, whose activity has an entry for the button. */
  ghost function UsersWith(activity: map<UserId, Activity>, legacy: map<UserId, Legacy>, users: seq<UserId>,
                           button: ButtonId): (r: seq<UserId>)
    ensures forall v :: v in r <==> v in users && button in CurrentActivity(activity, legacy, v)
    ensures |r| <= |users|
  {
    if users == [] then []
    else
      var init := users[..|users| - 1];
      var v := users[|users| - 1];
      assert users == init + [v];
      UsersWith(activity, legacy, init, button) + (if button in CurrentActivity(activity, legacy, v) then [v] else [])
  }

  /** The loop body of `reset_button` for one user. */
  method ResetUser(s: Store, v: UserId, button: ButtonId, now: nat) returns (hit: bool)
    modifies s
    ensures hit == (button in CurrentActivity(old(s.activity), old(s.legacy), v))
    ensures s.activity == old(s.activity)[v := ResetValue(old(s.activity), old(s.legacy), v, button, now)]
    ensures s.legacy == old(s.legacy) && s.posts == old(s.posts)
  {
    var a := s.GetUserActivity(v, now);
    hit := button in a;
    if hit {
      s.SetUserActivity(v, a - {button}, now);
    }
  }

  /** The stored activity once `reset_button` has handled the users in order. */
  ghost function ResetAll(activity: map<UserId, Activity>, legacy: map<UserId, Legacy>, users: seq<UserId>,
                          button: ButtonId, now: nat): map<UserId, Activity>
  {
    if users == [] then activity
    else
      var v := users[|users| - 1];
      ResetAll(activity, legacy, users[..|users| - 1], button, now)[v := ResetValue(activity, legacy, v, button, now)]
  }

  /** Users not handled keep their stored activity. */
  lemma {:induction false} ResetAllOthers(activity: map<UserId, Activity>, legacy: map<UserId, Legacy>,
                                          users: seq<UserId>, button: ButtonId, now: nat, v: UserId)
    requires v !in users
    ensures var r := ResetAll(activity, legacy, users, button, now);
      (v in r <==> v in activity) && (v in activity ==> r[v] == activity[v])
  {
    if users != [] {
      ResetAllOthers(activity, legacy, users[..|users| - 1], button, now, v);
    }
  }

  /** Each handled user ends with the reset value; every other user is left as stored. */
  lemma {:induction false} ResetAllMeaning(activity: map<UserId, Activity>, legacy: map<UserId, Legacy>,
                                           users: seq<UserId>, button: ButtonId, now: nat, v: UserId)
    ensures var r := ResetAll(activity, legacy, users, button, now);
      v in users ==> v in r && r[v] == ResetValue(activity, legacy, v, button, now)
    ensures var r := ResetAll(activity, legacy, users, button, now);
      v !in users ==> (v in r <==> v in activity) && (v in activity ==> r[v] == activity[v])
  {
    if v !in users {
      ResetAllOthers(activity, legacy, users, button, now, v);
    } else if users != [] && users[|users| - 1] != v {
      var init := users[..|users| - 1];
      assert users == init + [users[|users| - 1]];
      ResetAllMeaning(activity, legacy, init, button, now, v);
    }
  }

  /**
   * `reset_button`: every user whose activity has the button loses that
   * entry and is reported; the others are only read (a legacy user's
   * migrated map is saved on the way). See ResetAllMeaning for what each
   * user ends with.
   */
  method ResetButton(s: Store, users: seq<UserId>, button: ButtonId, now: nat) returns (reset: seq<UserId>)
    requires forall i, j :: 0 <= i < j < |users| ==> users[i] != users[j]
    modifies s
    ensures reset == UsersWith(old(s.activity), old(s.legacy), users, button)
    ensures s.activity == ResetAll(old(s.activity), old(s.legacy), users, button, now)
    ensures s.legacy == old(s.legacy) && s.posts == old(s.posts)
  {
    ghost var act, leg := s.activity, s.legacy;
    reset := [];
    var i := 0;
    while i < |users|
      invariant 0 <= i <= |users|
      invariant s.legacy == leg && s.posts == old(s.posts)
      invariant reset == UsersWith(act, leg, users[..i], button)
      invariant s.activity == ResetAll(act, leg, users[..i], button, now)
    {
      var v := users[i];
      assert users[..i + 1][..i] == users[..i];
      assert v !in users[..i];
      ResetAllOthers(act, leg, users[..i], button, now, v);
      assert CurrentActivity(s.activity, s.legacy, v) == CurrentActivity(act, leg, v);
      var hit := ResetUser(s, v, button, now);
      if hit {
        reset := reset + [v];
      }
      i := i + 1;
    }
    assert users[..i] == users;
  }

  /** After the reset the button has no entry, and the user keeps every other entry. */
  lemma ResetButtonClears(activity: map<UserId, Activity>, legacy: map<UserId, Legacy>, v: UserId,
                          button: ButtonId, now: nat)
    requires button != SiteKey
    ensures button !in ResetValue(activity, legacy, v, button, now)
    ensures forall k :: k != button && k != SiteKey ==>
      (k in ResetValue(activity, legacy, v, button, now) <==> k in CurrentActivity(activity, legacy, v))
  {
  }

  // ---------------------------------------------------------------------
  // Toggling a button for one user
  // ---------------------------------------------------------------------

  /**
   * The entry change of `admin_user_completion`: 'completed' set to now or
   * unset, and now appended to 'admin_activity'. Writing into a scalar
   * entry fails (None).
   */
  function AdminToggle(a: Activity, id: ButtonId, complete: bool, now: nat): (r: Option<Activity>)
    ensures r.None? <==> id in a && a[id].Scalar?
    ensures r.Some? ==> id in r.value && r.value[id].Record?
    ensures r.Some? ==> r.value[id].entry.completed == (if complete then Some(At(now)) else None)
    ensures r.Some? ==>
      r.value[id].entry.adminActivity == Some((if id in a then a[id].entry.adminActivity.GetOr([]) else []) + [now])
    ensures r.Some? ==> r.value[id].entry.firstSeen == (if id in a then a[id].entry.firstSeen else None)
    ensures r.Some? ==> forall k :: k != id ==> (k in r.value <==> k in a) && (k in a ==> r.value[k] == a[k])
  {
    if id in a && a[id].Scalar? then None
    else
      var e := if id in a then a[id].entry else EmptyEntry;
      var e1 := e.(completed := if complete then Some(At(now)) else None);
      Some(a[id := Record(e1.(adminActivity := Some(e.adminActivity.GetOr([]) + [now])))])
  }

  /** Apart from the admin log, the toggle is the public mark complete / mark incomplete. */
  lemma AdminToggleIsMark(a: Activity, id: ButtonId, complete: bool, now: nat)
    requires AdminToggle(a, id, complete, now).Some?
    ensures var m := if complete then SetCompleted(a, id, At(now)) else UnsetCompleted(a, id);
      m.Some? && AdminToggle(a, id, complete, now).value ==
        m.value[id := Record(m.value[id].entry.(adminActivity := AdminToggle(a, id, complete, now).value[id].entry.adminActivity))]
  {
  }

  /** The toggle adds the button to the completed entries or removes it, and nothing else. */
  lemma AdminToggleDone(a: Activity, id: ButtonId, complete: bool, now: nat)
    requires AdminToggle(a, id, complete, now).Some?
    ensures DoneEntries(AdminToggle(a, id, complete, now).value).Keys ==
      if complete then DoneEntries(a).Keys + {id} else DoneEntries(a).Keys - {id}
  {
  }

  /**
   * `admin_user_completion`: registers the button with its post when
   * needed, then toggles it ('complete' other than "false" completes).
   */
  method AdminUserCompletion(s: Store, u: UserId, id: ButtonId, complete: Option<string>, now: nat) returns (ok: bool)
    modifies s
    ensures s.posts == AfterRegistration(old(s.posts), ExtractButtonInfo(id).0, id)
    ensures ok == AdminToggle(old(s.Current(u)), id, complete != Some("false"), now).Some?
    ensures ok ==>
      s.activity == old(s.activity)[u := WithSiteStamp(AdminToggle(old(s.Current(u)), id, complete != Some("false"), now).value, now)]
    ensures !ok ==> s.activity == ReadBack(old(s.activity), old(s.legacy), u, now)
    ensures s.legacy == old(s.legacy)
  {
    var a := s.GetUserActivity(u, now);
    RegisterButton(s, ExtractButtonInfo(id).0, id);
    var r := AdminToggle(a, id, complete != Some("false"), now);
    if r.None? {
      return false;
    }
    s.SetUserActivity(u, r.value, now);
    ok := true;
  }

  // ---------------------------------------------------------------------
  // Deleting a user's data
  // ---------------------------------------------------------------------

  /** The activity without the entries of the given buttons. */
  function WithoutButtons(a: Activity, bs: seq<ButtonId>): (r: Activity)
    ensures forall k :: k in r <==> k in a && k !in bs
    ensures forall k :: k in r ==> r[k] == a[k]
  {
    map k | k in a && k !in bs :: a[k]
  }

  /** The unset loop over a course's buttons. */
  method RemoveButtons(a: Activity, bs: seq<ButtonId>) returns (r: Activity)
    ensures r == WithoutButtons(a, bs)
  {
    r := a;
    var i := 0;
    while i < |bs|
      invariant 0 <= i <= |bs|
      invariant r == WithoutButtons(a, bs[..i])
    {
      assert bs[..i + 1] == bs[..i] + [bs[i]];
      if bs[i] in r {
        r := r - {bs[i]};
      }
      assert r == WithoutButtons(a, bs[..i + 1]);
      i := i + 1;
    }
    assert bs[..i] == bs;
  }

  /** A course whose entries were deleted reads as not started. */
  lemma WithoutButtonsIncomplete(a: Activity, bs: seq<ButtonId>)
    requires |bs| > 0
    ensures CourseStatus(bs, DoneEntries(WithoutButtons(a, bs))) == Incomplete
    ensures forall k :: k !in bs ==> (k in DoneEntries(WithoutButtons(a, bs)) <==> k in DoneEntries(a))
  {
    CourseStatusMeaning(bs, DoneEntries(WithoutButtons(a, bs)));
  }

  /**
   * `delete_user_data`: with a course, the entries of its buttons are
   * removed from the user's activity; without one, an empty map is saved
   * without reading the old one. `courseButtons` stands for
   * `get_course_buttons($course)`.
   */
  method DeleteUserData(s: Store, u: UserId, course: Option<string>, courseButtons: seq<ButtonId>, now: nat)
    modifies s
    ensures course.Some? && !EmptyStr(course.value) ==>
      s.activity == old(s.activity)[u := WithSiteStamp(WithoutButtons(old(s.Current(u)), courseButtons), now)]
    ensures course.None? || EmptyStr(course.value) ==> s.activity == old(s.activity)[u := WithSiteStamp(map[], now)]
    ensures s.legacy == old(s.legacy) && s.posts == old(s.posts)
  {
    var data: Activity := map[];
    if course.Some? && !EmptyStr(course.value) {
      var a := s.GetUserActivity(u, now);
      data := RemoveButtons(a, courseButtons);
    }
    s.SetUserActivity(u, data, now);
  }

  // ---------------------------------------------------------------------
  // The per-user CSV export
  // ---------------------------------------------------------------------

  /** A CSV cell: "No", a first-seen time, or a completion value ("Yes" for true). */
  datatype Cell = No | Seen(time: nat) | Done(stamp: Stamp)

  datatype Row = Row(post: PostId, button: ButtonId, started: Cell, completed: Cell)

  /** The buttons a post is exported with: its list, or the post id when the list is missing or empty. */
  function ExportButtons(post: PostId, meta: PostMeta): (bs: seq<ButtonId>)
    ensures |bs| >= 1
    ensures meta.buttons.None? || meta.buttons.value == [] ==> bs == [post]
    ensures meta.buttons.Some? && meta.buttons.value != [] ==> bs == Values(meta.buttons.value)
  {
    if meta.buttons.Some? && meta.buttons.value != [] then Values(meta.buttons.value) else [post]
  }

  /** One CSV row: "No" for each field the entry does not have. */
  function RowFor(post: PostId, b: ButtonId, a: Activity): (r: Row)
    ensures r.post == post && r.button == b
    ensures b !in a ==> r.started == No && r.completed == No
    ensures r.started != No <==> b in a && a[b].Record? && a[b].entry.firstSeen.Some?
    ensures r.completed != No <==> b in a && HasCompletedKey(a[b])
    ensures r.completed.Done? ==> r.completed.stamp == a[b].entry.completed.value
  {
    if b in a && a[b].Record? then
      var e := a[b].entry;
      Row(post, b, if e.firstSeen.Some? then Seen(e.firstSeen.value) else No,
          if e.completed.Some? then Done(e.completed.value) else No)
    else Row(post, b, No, No)
  }

  function PostRows(post: PostId, meta: PostMeta, a: Activity): (rows: seq<Row>)
    ensures |rows| == |ExportButtons(post, meta)|
    ensures forall i :: 0 <= i < |rows| ==> rows[i] == RowFor(post, ExportButtons(post, meta)[i], a)
  {
    var bs := ExportButtons(post, meta);
    seq(|bs|, i requires 0 <= i < |bs| => RowFor(post, bs[i], a))
  }

  /** The rows of `export_user_completion_csv`, post by post in order. */
  function ExportSpec(posts: map<PostId, PostMeta>, order: seq<PostId>, a: Activity): seq<Row>
    requires forall i :: 0 <= i < |order| ==> order[i] in posts
  {
    if order == [] then []
    else ExportSpec(posts, order[..|order| - 1], a) + PostRows(order[|order| - 1], posts[order[|order| - 1]], a)
  }

  /** The export's inner loop over one post's buttons. */
  method ButtonRows(post: PostId, meta: PostMeta, a: Activity) returns (rows: seq<Row>)
    ensures rows == PostRows(post, meta, a)
  {
    var bs := ExportButtons(post, meta);
    rows := [];
    var j := 0;
    while j < |bs|
      invariant 0 <= j <= |bs|
      invariant rows == PostRows(post, meta, a)[..j]
    {
      assert PostRows(post, meta, a)[..j + 1] == PostRows(post, meta, a)[..j] + [RowFor(post, bs[j], a)];
      rows := rows + [RowFor(post, bs[j], a)];
      j := j + 1;
    }
  }

  /** The export's outer loop over the completable posts. */
  method ExportRows(posts: map<PostId, PostMeta>, order: seq<PostId>, a: Activity) returns (rows: seq<Row>)
    requires forall i :: 0 <= i < |order| ==> order[i] in posts
    ensures rows == ExportSpec(posts, order, a)
  {
    rows := [];
    var i := 0;
    while i < |order|
      invariant 0 <= i <= |order|
      invariant rows == ExportSpec(posts, order[..i], a)
    {
      assert order[..i + 1][..i] == order[..i];
      var more := ButtonRows(order[i], posts[order[i]], a);
      rows := rows + more;
      i := i + 1;
    }
    assert order[..i] == order;
  }

  /** Some post of the order lists the row's button among its export buttons. */
  predicate ListedButton(posts: map<PostId, PostMeta>, order: seq<PostId>, r: Row)
    requires forall i :: 0 <= i < |order| ==> order[i] in posts
  {
    exists i :: 0 <= i < |order| && r.post == order[i] && r.button in ExportButtons(order[i], posts[order[i]])
  }

  lemma ListedButtonLast(posts: map<PostId, PostMeta>, order: seq<PostId>, r: Row)
    requires order != [] && forall i :: 0 <= i < |order| ==> order[i] in posts
    ensures ListedButton(posts, order, r) <==>
      ListedButton(posts, order[..|order| - 1], r) ||
      (r.post == order[|order| - 1] && r.button in ExportButtons(order[|order| - 1], posts[order[|order| - 1]]))
  {
    var init := order[..|order| - 1];
    if ListedButton(posts, order, r) {
      var i :| 0 <= i < |order| && r.post == order[i] && r.button in ExportButtons(order[i], posts[order[i]]);
      if i < |init| {
        assert init[i] == order[i];
      }
    }
    if ListedButton(posts, init, r) {
      var i :| 0 <= i < |init| && r.post == init[i] && r.button in ExportButtons(init[i], posts[init[i]]);
      assert init[i] == order[i];
    }
  }

  lemma InPostRows(post: PostId, meta: PostMeta, a: Activity, r: Row)
    ensures r in PostRows(post, meta, a) <==>
      r.post == post && r.button in ExportButtons(post, meta) && r == RowFor(r.post, r.button, a)
  {
    var rows := PostRows(post, meta, a);
    var bs := ExportButtons(post, meta);
    if r in rows {
      var k :| 0 <= k < |rows| && rows[k] == r;
      assert r.button == bs[k];
    }
    if r.post == post && r.button in bs && r == RowFor(r.post, r.button, a) {
      var k :| 0 <= k < |bs| && bs[k] == r.button;
      assert rows[k] == r;
    }
  }

  /** Every exported row is some post's button with its cells, and every such button is exported. */
  lemma {:induction false} ExportSpecMeaning(posts: map<PostId, PostMeta>, order: seq<PostId>, a: Activity, r: Row)
    requires forall i :: 0 <= i < |order| ==> order[i] in posts
    ensures r in ExportSpec(posts, order, a) <==>
      ListedButton(posts, order, r) && r == RowFor(r.post, r.button, a)
  {
    if order != [] {
      var init := order[..|order| - 1];
      var p := order[|order| - 1];
      ExportSpecMeaning(posts, init, a, r);
      InPostRows(p, posts[p], a, r);
      ListedButtonLast(posts, order, r);
      assert ExportSpec(posts, order, a) == ExportSpec(posts, init, a) + PostRows(p, posts[p], a);
    }
  }
}

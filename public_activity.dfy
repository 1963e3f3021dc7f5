/**
 * The public side's updates of a user's activity: marking a button
 * completed or not completed, recording when a button was first seen, the
 * autocomplete attribute, and resetting a course or the whole account.
 */
module PublicActivity {
  import opened Php
  import opened Common

  // ---------------------------------------------------------------------
  // Registering a button in its post's meta
  // ---------------------------------------------------------------------

  /** The button is missing from the post's registered buttons (or the post has no meta). */
  predicate NeedsRegistration(posts: map<PostId, PostMeta>, post: PostId, id: ButtonId) {
    post !in posts || posts[post].buttons.None? || id !in Values(posts[post].buttons.value)
  }

  /** `$post_meta['buttons'][] = $unique_button_id`, starting from an empty list when unset. */
  function Registered(meta: Option<PostMeta>, id: ButtonId): (r: PostMeta)
    ensures r.buttons.Some? && id in Values(r.buttons.value)
    ensures meta.None? ==> r == PostMeta(None, Some(ListOf([id])), None)
    ensures meta.Some? ==> r.course == meta.value.course && r.redirect == meta.value.redirect
    ensures meta.Some? ==>
      Values(r.buttons.value) == Values(meta.value.buttons.GetOr([])) + [id]
  {
    match meta
    case None =>
      assert Values(ListOf([id])) == [id];
      PostMeta(None, Some(ListOf([id])), None)
    case Some(m) =>
      var bs := Push(m.buttons.GetOr([]), id);
      m.(buttons := Some(bs))
  }

  /** The registration step shared by `mark_completed` and the admin toggle. */
  ghost function AfterRegistration(posts: map<PostId, PostMeta>, post: PostId, id: ButtonId): map<PostId, PostMeta> {
    if NeedsRegistration(posts, post, id)
    then posts[post := Registered(if post in posts then Some(posts[post]) else None, id)]
    else posts
  }

  /** The registration step as `mark_completed` runs it: the post meta is saved only when the button is missing. */
  method RegisterButton(s: Store, post: PostId, id: ButtonId)
    modifies s
    ensures s.posts == AfterRegistration(old(s.posts), post, id)
    ensures s.activity == old(s.activity) && s.legacy == old(s.legacy)
  {
    if NeedsRegistration(s.posts, post, id) {
      var meta := if post in s.posts then Some(s.posts[post]) else None;
      s.UpdatePostMeta(post, Registered(meta, id));
    }
  }

  /** Registration never repeats a button: a list without repeats stays without repeats. */
  lemma RegistrationKeepsDistinct(posts: map<PostId, PostMeta>, post: PostId, id: ButtonId)
    requires post in posts && posts[post].buttons.Some? ==> DistinctVals(Values(posts[post].buttons.value))
    ensures post in AfterRegistration(posts, post, id)
    ensures AfterRegistration(posts, post, id)[post].buttons.Some?
    ensures DistinctVals(Values(AfterRegistration(posts, post, id)[post].buttons.value))
    ensures id in Values(AfterRegistration(posts, post, id)[post].buttons.value)
  {
    var after := AfterRegistration(posts, post, id);
    if NeedsRegistration(posts, post, id) {
      if post in posts {
        var old_ := Values(posts[post].buttons.GetOr([]));
        var vs := Values(after[post].buttons.value);
        assert vs == old_ + [id];
        forall i, j | 0 <= i < j < |vs| ensures vs[i] != vs[j] {
          if j == |vs| - 1 {
            assert vs[i] == old_[i];
            assert old_[i] in old_;
          }
        }
      } else {
        assert Values(after[post].buttons.value) == [id];
      }
    }
  }

  /** `register_button`'s place in `mark_completed`: registering twice is registering once. */
  lemma RegistrationIdempotent(posts: map<PostId, PostMeta>, post: PostId, id: ButtonId)
    ensures AfterRegistration(AfterRegistration(posts, post, id), post, id) == AfterRegistration(posts, post, id)
  {
    var after := AfterRegistration(posts, post, id);
    assert !NeedsRegistration(after, post, id);
  }

  // ---------------------------------------------------------------------
  // Setting and unsetting 'completed'
  // ---------------------------------------------------------------------

  /**
   * `$a[$id]['completed'] = $stamp` after creating an empty entry when
   * missing; writing into a scalar entry is a PHP error, modelled as None.
   */
  function SetCompleted(a: Activity, id: ButtonId, stamp: Stamp): (r: Option<Activity>)
    ensures r.None? <==> id in a && a[id].Scalar?
    ensures r.Some? ==> id in r.value && r.value[id].Record? && r.value[id].entry.completed == Some(stamp)
    ensures r.Some? && id in a ==>
      r.value[id].entry.firstSeen == a[id].entry.firstSeen &&
      r.value[id].entry.adminActivity == a[id].entry.adminActivity
    ensures r.Some? && id !in a ==> r.value[id] == Record(Entry(None, Some(stamp), None))
    ensures r.Some? ==> forall k :: k != id ==> (k in r.value <==> k in a) && (k in a ==> r.value[k] == a[k])
  {
    if id in a && a[id].Scalar? then None
    else
      var e := if id in a then a[id].entry else EmptyEntry;
      Some(a[id := Record(e.(completed := Some(stamp)))])
  }

  /** `unset($a[$id]['completed'])` after creating an empty entry when missing. */
  function UnsetCompleted(a: Activity, id: ButtonId): (r: Option<Activity>)
    ensures r.None? <==> id in a && a[id].Scalar?
    ensures r.Some? ==> id in r.value && r.value[id].Record? && r.value[id].entry.completed.None?
    ensures r.Some? && id in a ==>
      r.value[id].entry.firstSeen == a[id].entry.firstSeen &&
      r.value[id].entry.adminActivity == a[id].entry.adminActivity
    ensures r.Some? && id !in a ==> r.value[id] == Record(EmptyEntry)
    ensures r.Some? ==> forall k :: k != id ==> (k in r.value <==> k in a) && (k in a ==> r.value[k] == a[k])
  {
    if id in a && a[id].Scalar? then None
    else
      var e := if id in a then a[id].entry else EmptyEntry;
      Some(a[id := Record(e.(completed := None))])
  }

  /** Completing with a non-empty stamp adds exactly this button to the completed entries. */
  lemma SetCompletedDone(a: Activity, id: ButtonId, stamp: Stamp)
    requires SetCompleted(a, id, stamp).Some? && stamp != Blank
    ensures DoneEntries(SetCompleted(a, id, stamp).value).Keys == DoneEntries(a).Keys + {id}
  {
  }

  /** Uncompleting removes exactly this button from the completed entries. */
  lemma UnsetCompletedDone(a: Activity, id: ButtonId)
    requires UnsetCompleted(a, id).Some?
    ensures DoneEntries(UnsetCompleted(a, id).value).Keys == DoneEntries(a).Keys - {id}
  {
  }

  /** Marking complete and then incomplete is the same as marking incomplete. */
  lemma UnsetUndoesSet(a: Activity, id: ButtonId, stamp: Stamp)
    requires SetCompleted(a, id, stamp).Some?
    ensures UnsetCompleted(SetCompleted(a, id, stamp).value, id) == UnsetCompleted(a, id)
  {
    var e := if id in a then a[id].entry else EmptyEntry;
    var a1 := SetCompleted(a, id, stamp).value;
    assert a1 == a[id := Record(e.(completed := Some(stamp)))];
    assert a1[id].entry.(completed := None) == e.(completed := None);
    assert a1[id := Record(e.(completed := None))] == a[id := Record(e.(completed := None))];
  }

  /** `mark_completed`: registers the button with its post when needed, then sets 'completed'. */
  method MarkCompleted(s: Store, u: UserId, id: ButtonId, now: nat) returns (ok: bool)
    modifies s
    ensures s.posts == AfterRegistration(old(s.posts), ExtractButtonInfo(id).0, id)
    ensures ok == SetCompleted(old(s.Current(u)), id, At(now)).Some?
    ensures ok ==>
      s.activity == old(s.activity)[u := WithSiteStamp(SetCompleted(old(s.Current(u)), id, At(now)).value, now)]
    ensures !ok ==> s.activity == ReadBack(old(s.activity), old(s.legacy), u, now)
    ensures s.legacy == old(s.legacy)
  {
    var a := s.GetUserActivity(u, now);
    RegisterButton(s, ExtractButtonInfo(id).0, id);
    var r := SetCompleted(a, id, At(now));
    if r.None? {
      return false;
    }
    s.SetUserActivity(u, r.value, now);
    ok := true;
  }

  /** `mark_uncompleted`: removes the 'completed' key of one button and saves. */
  method MarkUncompleted(s: Store, u: UserId, id: ButtonId, now: nat) returns (ok: bool)
    modifies s
    ensures ok == UnsetCompleted(old(s.Current(u)), id).Some?
    ensures ok ==>
      s.activity == old(s.activity)[u := WithSiteStamp(UnsetCompleted(old(s.Current(u)), id).value, now)]
    ensures !ok ==> s.activity == ReadBack(old(s.activity), old(s.legacy), u, now)
    ensures s.legacy == old(s.legacy) && s.posts == old(s.posts)
  {
    var a := s.GetUserActivity(u, now);
    var r := UnsetCompleted(a, id);
    if r.None? {
      return false;
    }
    s.SetUserActivity(u, r.value, now);
    ok := true;
  }

  // ---------------------------------------------------------------------
  // Showing a button: attribute cleanup, first_seen and autocomplete
  // ---------------------------------------------------------------------

  /**
   * `preg_replace("/^c(.*)c$/", "$1", $v)`: drops a wrapping pair of c when
   * the inside has no line break. Without the `D` modifier `$` also matches
   * just before a final line break, which then stays after the inside.
   */
  function StripWrap(v: string, c: char): (r: string)
    ensures r == v
      || (|v| >= 2 && v[0] == c && v[|v| - 1] == c && r == v[1..|v| - 1])
      || (|v| >= 3 && v[0] == c && v[|v| - 2] == c && v[|v| - 1] == '\n' && r == v[1..|v| - 2] + "\n")
    ensures v == [] || v[0] != c ==> r == v
    ensures |v| >= 2 && v[|v| - 1] != c && v[|v| - 1] != '\n' ==> r == v
  {
    if |v| >= 2 && v[0] == c && v[|v| - 1] == c && '\n' !in v[1..|v| - 1] then v[1..|v| - 1]
    else if |v| >= 3 && v[0] == c && v[|v| - 2] == c && v[|v| - 1] == '\n' && '\n' !in v[1..|v| - 2]
    then v[1..|v| - 2] + "\n"
    else v
  }

  /** A value wrapped in c loses exactly the wrapping. */
  lemma StripWrapUnwraps(v: string, c: char)
    requires '\n' !in v
    ensures StripWrap([c] + v + [c], c) == v
  {
    var w := [c] + v + [c];
    assert w[1..|w| - 1] == v;
  }

  /** A wrapped value followed by one line break keeps the line break after the inside. */
  lemma StripWrapFinalNewline(v: string, c: char)
    requires '\n' !in v && c != '\n'
    ensures StripWrap([c] + v + [c] + "\n", c) == v + "\n"
  {
    var w := [c] + v + [c] + "\n";
    assert w[1..|w| - 2] == v;
    assert w[1..|w| - 1] == v + [c];
  }

  /** Smart closing quotes, then backticks, around an attribute value are removed. */
  function StripTicks(v: string): string {
    StripWrap(StripWrap(v, '”'), '`')
  }

  /** The attribute cleanup loop of `complete_button_cb`: every value loses its wrapping. */
  function CleanAtts(atts: map<string, string>): (r: map<string, string>)
    ensures r.Keys == atts.Keys
    ensures forall k :: k in r ==> r[k] == StripTicks(atts[k])
  {
    map k | k in atts :: StripTicks(atts[k])
  }

  /** The first of the attributes `k1`, `k2` that is set and not empty, or "". */
  function FirstSet(atts: map<string, string>, k1: string, k2: string): (r: string)
    ensures r == "" || (k1 in atts && r == atts[k1] && !EmptyStr(r)) || (k2 in atts && r == atts[k2] && !EmptyStr(r))
    ensures k1 in atts && !EmptyStr(atts[k1]) ==> r == atts[k1]
    ensures (k1 !in atts || EmptyStr(atts[k1])) && (k2 !in atts || EmptyStr(atts[k2])) ==> r == ""
  {
    if k1 in atts && !EmptyStr(atts[k1]) then atts[k1]
    else if k2 in atts && !EmptyStr(atts[k2]) then atts[k2]
    else ""
  }

  /** The post a button belongs to: `post_id`, else `post`, converted by `intval`, else the current post. */
  function TargetPost(atts: map<string, string>, current: PostId, intval: string -> PostId): PostId {
    var p := FirstSet(atts, "post_id", "post");
    if p == "" then current else intval(p)
  }

  /** `first_seen` is recorded only for an entry with neither `first_seen` nor `completed`. */
  function Seen(e: Entry, now: nat): (r: Entry)
    ensures e.completed.None? ==> r.firstSeen.Some?
    ensures e.firstSeen.None? && e.completed.None? ==> r == e.(firstSeen := Some(now))
    ensures r.completed == e.completed && r.adminActivity == e.adminActivity
    ensures e.firstSeen.Some? ==> r.firstSeen == e.firstSeen
    ensures e.completed.Some? ==> r == e
  {
    if e.firstSeen.None? && e.completed.None? then e.(firstSeen := Some(now)) else e
  }

  /** Rendering again, at any later time, never moves `first_seen`. */
  lemma SeenStable(e: Entry, t1: nat, t2: nat)
    ensures Seen(Seen(e, t1), t2) == Seen(e, t1)
  {
  }

  /** Rendering saves when it records `first_seen` or autocompletes. */
  predicate ViewSaves(e: Entry, auto: bool) {
    (e.firstSeen.None? && e.completed.None?) || (auto && e.completed.None?)
  }

  /** The button's entry after rendering: `first_seen` recorded, then completed when autocompleting. */
  function ViewedEntry(e: Entry, auto: bool, now: nat): (r: Entry)
    ensures e.firstSeen.Some? ==> r.firstSeen == e.firstSeen
    ensures e.completed.Some? ==> r.completed == e.completed
    ensures auto ==> r.completed.Some?
    ensures e.firstSeen.None? && e.completed.None? ==> r.firstSeen == Some(now)
    ensures auto && e.completed.None? ==> r.completed == Some(At(now))
    ensures !auto ==> r.completed == e.completed
    ensures !ViewSaves(e, auto) ==> r == e
    ensures r.adminActivity == e.adminActivity
  {
    var e1 := Seen(e, now);
    if auto && e1.completed.None? then e1.(completed := Some(At(now))) else e1
  }

  /** Viewing twice is viewing once: the second view saves nothing. */
  lemma ViewedEntryStable(e: Entry, auto: bool, t1: nat, t2: nat)
    ensures !ViewSaves(ViewedEntry(e, auto, t1), auto)
    ensures ViewedEntry(ViewedEntry(e, auto, t1), auto, t2) == ViewedEntry(e, auto, t1)
  {
  }

  /**
   * The part of `complete_button_cb` after the checks, given the activity
   * just read: records `first_seen`, and with `autocomplete` registers the
   * button and marks it completed.
   */
  method ViewButton(s: Store, u: UserId, a: Activity, post: PostId, id: ButtonId, auto: bool, now: nat)
    requires post in s.posts
    requires id !in a || a[id].Record?
    modifies s
    ensures var e := if id in a then a[id].entry else EmptyEntry;
      && (ViewSaves(e, auto) ==>
            s.activity == old(s.activity)[u := WithSiteStamp(a[id := Record(ViewedEntry(e, auto, now))], now)])
      && (!ViewSaves(e, auto) ==> s.activity == old(s.activity))
      && (auto && e.completed.None? ==> s.posts == AfterRegistration(old(s.posts), post, id))
      && (!(auto && e.completed.None?) ==> s.posts == old(s.posts))
    ensures s.legacy == old(s.legacy)
  {
    var e := if id in a then a[id].entry else EmptyEntry;
    ghost var e0 := e;
    if e.firstSeen.None? && e.completed.None? {
      e := Seen(e, now);
      s.SetUserActivity(u, a[id := Record(e)], now);
    }
    if auto && e.completed.None? {
      RegisterButton(s, post, id);
      e := e.(completed := Some(At(now)));
      s.SetUserActivity(u, a[id := Record(e)], now);
    }
    assert e == ViewedEntry(e0, auto, now);
  }

  datatype Shown = Guest | Unsupported | Uncompletable | Rendered(id: ButtonId) | Failed

  /** The button id a shortcode's attributes name, after cleanup. */
  function ShortcodeButton(atts: map<string, string>, current: PostId, intval: string -> PostId): (id: ButtonId)
    ensures StartsWith(id, TargetPost(atts, current, intval))
  {
    ButtonIdOf(TargetPost(atts, current, intval), FirstSet(atts, "id", "name"))
  }

  /**
   * `complete_button_cb`: cleans the attributes, finds the button, checks the
   * post type and that the post is completable, then records the view;
   * writing into a scalar entry fails. `postType` stands for
   * `get_post_type`, `intval` for PHP's `intval`.
   */
  method ShowButton(s: Store, user: Option<UserId>, rawAtts: map<string, string>, current: PostId,
                    postType: PostId -> string, enabledTypes: seq<string>, intval: string -> PostId, now: nat)
    returns (out: Shown)
    modifies s
    ensures out == Guest <==> user.None?
    ensures out == Unsupported <==>
      user.Some? && postType(TargetPost(CleanAtts(rawAtts), current, intval)) !in enabledTypes
    ensures out == Uncompletable <==>
      user.Some? && postType(TargetPost(CleanAtts(rawAtts), current, intval)) in enabledTypes &&
      TargetPost(CleanAtts(rawAtts), current, intval) !in old(s.posts)
    ensures out.Rendered? ==> out.id == ShortcodeButton(CleanAtts(rawAtts), current, intval)
    ensures (out.Rendered? || out == Failed) && user.Some? ==>
      var id := ShortcodeButton(CleanAtts(rawAtts), current, intval);
      out == Failed <==> id in old(s.Current(user.value)) && old(s.Current(user.value))[id].Scalar?
    ensures out.Rendered? && user.Some? ==>
      var id := ShortcodeButton(CleanAtts(rawAtts), current, intval);
      var a := old(s.Current(user.value));
      var e := if id in a && a[id].Record? then a[id].entry else EmptyEntry;
      var auto := "autocomplete" in CleanAtts(rawAtts);
      && (ViewSaves(e, auto) ==>
            s.activity == old(s.activity)[user.value := WithSiteStamp(a[id := Record(ViewedEntry(e, auto, now))], now)])
      && (!ViewSaves(e, auto) ==> s.activity == ReadBack(old(s.activity), old(s.legacy), user.value, now))
      && (auto && e.completed.None? ==>
            s.posts == AfterRegistration(old(s.posts), TargetPost(CleanAtts(rawAtts), current, intval), id))
      && (!(auto && e.completed.None?) ==> s.posts == old(s.posts))
    ensures out == Failed && user.Some? ==> s.activity == ReadBack(old(s.activity), old(s.legacy), user.value, now)
    ensures out.Rendered? || out == Failed ==> user.Some?
    ensures !out.Rendered? && out != Failed ==> s.activity == old(s.activity)
    ensures !out.Rendered? ==> s.posts == old(s.posts)
    ensures s.legacy == old(s.legacy)
  {
    if user.None? {
      return Guest;
    }
    var atts := CleanAtts(rawAtts);
    var post := TargetPost(atts, current, intval);
    if postType(post) !in enabledTypes {
      return Unsupported;
    }
    if post !in s.posts {
      return Uncompletable;
    }
    var id := ShortcodeButton(atts, current, intval);
    out := ShowFor(s, user.value, post, id, "autocomplete" in atts, now);
  }

  /** The end of `complete_button_cb` once the button is known: read the activity, fail on a scalar entry, record the view. */
  method ShowFor(s: Store, u: UserId, post: PostId, id: ButtonId, auto: bool, now: nat) returns (out: Shown)
    requires post in s.posts
    modifies s
    ensures out == Failed || out == Rendered(id)
    ensures out == Failed <==> id in old(s.Current(u)) && old(s.Current(u))[id].Scalar?
    ensures out.Rendered? ==>
      var a := old(s.Current(u));
      var e := if id in a && a[id].Record? then a[id].entry else EmptyEntry;
      && (ViewSaves(e, auto) ==>
            s.activity == old(s.activity)[u := WithSiteStamp(a[id := Record(ViewedEntry(e, auto, now))], now)])
      && (!ViewSaves(e, auto) ==> s.activity == ReadBack(old(s.activity), old(s.legacy), u, now))
      && (auto && e.completed.None? ==> s.posts == AfterRegistration(old(s.posts), post, id))
      && (!(auto && e.completed.None?) ==> s.posts == old(s.posts))
    ensures out == Failed ==> s.activity == ReadBack(old(s.activity), old(s.legacy), u, now) && s.posts == old(s.posts)
    ensures s.legacy == old(s.legacy)
  {
    var a := s.GetUserActivity(u, now);
    if id in a && a[id].Scalar? {
      return Failed;
    }
    ghost var read := s.activity;
    ViewButton(s, u, a, post, id, auto, now);
    out := Rendered(id);
  }

  // ---------------------------------------------------------------------
  // Course status as the premium shortcodes read it
  // ---------------------------------------------------------------------

  /** `course_is_completed` as written: it answers true when the course is NOT completed. */
  ghost function CourseIsCompleted(bs: seq<ButtonId>, done: map<ButtonId, Value>): bool {
    CourseStatus(bs, done) != Completed
  }

  /** The answer is true exactly when some course button is not completed. */
  lemma CourseIsCompletedNegated(bs: seq<ButtonId>, done: map<ButtonId, Value>)
    ensures CourseIsCompleted(bs, done) <==> exists i :: 0 <= i < |bs| && bs[i] !in done
    ensures bs == [] ==> !CourseIsCompleted(bs, done)
  {
    CourseStatusMeaning(bs, done);
  }

  // ---------------------------------------------------------------------
  // Resetting the account
  // ---------------------------------------------------------------------

  /** The activity after removing every course button that has a 'completed' key. */
  function ResetCourse(a: Activity, bs: seq<ButtonId>): (r: Activity)
    ensures forall k :: k in r <==> k in a && !(k in bs && HasCompletedKey(a[k]))
    ensures forall k :: k in r ==> r[k] == a[k]
  {
    map k | k in a && !(k in bs && HasCompletedKey(a[k])) :: a[k]
  }

  /** No course button keeps a completion, and the keys stay the same exactly when there was none. */
  lemma ResetCourseMeaning(a: Activity, bs: seq<ButtonId>)
    ensures forall i :: 0 <= i < |bs| ==> bs[i] !in DoneEntries(ResetCourse(a, bs))
    ensures ResetCourse(a, bs).Keys == a.Keys <==>
      forall i :: 0 <= i < |bs| ==> !(bs[i] in a && HasCompletedKey(a[bs[i]]))
  {
  }

  /** The loop of `reset_account` over the course's buttons. */
  method RemoveCompleted(a: Activity, bs: seq<ButtonId>) returns (data: Activity)
    ensures data == ResetCourse(a, bs)
  {
    data := a;
    var i := 0;
    while i < |bs|
      invariant 0 <= i <= |bs|
      invariant forall k :: k in data <==> k in a && !(k in bs[..i] && HasCompletedKey(a[k]))
      invariant forall k :: k in data ==> data[k] == a[k]
    {
      assert forall k :: k in bs[..i + 1] <==> k in bs[..i] || k == bs[i];
      if bs[i] in data && HasCompletedKey(data[bs[i]]) {
        data := data - {bs[i]};
      }
      i := i + 1;
    }
    assert bs[..i] == bs;
  }

  datatype ResetOutcome = NoChange | Success

  /**
   * `reset_account`: with a course (given as its buttons) removes the
   * completed course buttons and saves only when some key went; without one
   * saves an empty map unless the activity already is empty.
   */
  method ResetAccount(s: Store, u: UserId, course: Option<seq<ButtonId>>, now: nat) returns (out: ResetOutcome)
    modifies s
    ensures var a := old(s.Current(u));
      && (course.Some? ==>
            && (out == NoChange <==> ResetCourse(a, course.value).Keys == a.Keys)
            && (out == Success ==> s.activity == old(s.activity)[u := WithSiteStamp(ResetCourse(a, course.value), now)]))
      && (course.None? ==>
            && (out == NoChange <==> a == map[])
            && (out == Success ==> s.activity == old(s.activity)[u := WithSiteStamp(map[], now)]))
      && (out == NoChange ==> s.activity == ReadBack(old(s.activity), old(s.legacy), u, now))
    ensures s.legacy == old(s.legacy) && s.posts == old(s.posts)
  {
    var a := s.GetUserActivity(u, now);
    if course.Some? {
      var bs := course.value;
      var data := RemoveCompleted(a, bs);
      if data.Keys == a.Keys {
        return NoChange;
      }
      s.SetUserActivity(u, data, now);
      out := Success;
    } else {
      if a == map[] {
        return NoChange;
      }
      s.SetUserActivity(u, map[], now);
      out := Success;
    }
  }
}

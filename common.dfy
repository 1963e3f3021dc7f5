/**
 * The completion-tracking data model shared by the public and admin sides of
 * WPComplete: button ids, a user's activity map, the completable-posts map,
 * post and course status, progress, the legacy-format migration and the
 * abstract store that WordPress user meta and post meta provide.
 */
module Common {
  import opened Php

  /** Post ids are kept in their decimal string form, as `'' . $post_id` makes them. */
  type PostId = string
  type ButtonId = string
  type UserId = nat

  /** The activity entry that `set_user_activity` overwrites with the save time. */
  const SiteKey: ButtonId := "0-site"

  /**
   * A completion value as it appears in stored JSON: `true` (old format), a
   * timestamp, an empty value ("", "0", false) or anything else (an array).
   */
  datatype Stamp = Yes | At(time: nat) | Blank | Other

  /** One button's activity record; `None` is a key that is not set. */
  datatype Entry = Entry(firstSeen: Option<nat>, completed: Option<Stamp>, adminActivity: Option<seq<nat>>)

  /** An activity value: a record, or a bare scalar such as the `'0-site'` stamp. */
  datatype Value = Scalar(stamp: Stamp) | Record(entry: Entry)

  /** A user's activity map: button id to value. */
  type Activity = map<ButtonId, Value>

  /** A completable post's meta: its course, its registered buttons and its redirect. */
  datatype PostMeta = PostMeta(course: Option<string>, buttons: Option<PhpList>, redirect: Option<string>)

  /** Post completion status, as the strings 'not-completable', 'incomplete', 'partial', 'completed'. */
  datatype Status = NotCompletable | Incomplete | Partial | Completed

  const EmptyEntry: Entry := Entry(None, None, None)

  // ---------------------------------------------------------------------
  // Button ids
  // ---------------------------------------------------------------------

  /** `get_button_id`: the post id, followed by "-name" when the name is not empty. */
  function ButtonIdOf(post: PostId, name: string): (r: ButtonId)
    ensures StartsWith(r, post)
    ensures r == post <==> EmptyStr(name)
    ensures !EmptyStr(name) ==> r[|post|] == '-' && r[|post| + 1..] == name
  {
    if EmptyStr(name) then post else post + "-" + name
  }

  /** `extract_button_info`: split at the first '-' only; no '-' gives an empty name. */
  function ExtractButtonInfo(id: ButtonId): (r: (PostId, string))
    ensures '-' !in r.0
    ensures '-' in id ==> id == r.0 + "-" + r.1
    ensures '-' !in id ==> r == (id, "")
  {
    var i := FirstIndex(id, '-');
    if i < |id| then
      assert id == id[..i] + "-" + id[i + 1..];
      (id[..i], id[i + 1..])
    else
      assert id[..i] == id;
      (id, "")
  }

  /** Building an id and splitting it again gives the parts back when the post id has no '-'. */
  lemma ButtonIdRoundTrip(post: PostId, name: string)
    requires '-' !in post
    ensures !EmptyStr(name) ==> ExtractButtonInfo(ButtonIdOf(post, name)) == (post, name)
    ensures EmptyStr(name) ==> ExtractButtonInfo(ButtonIdOf(post, name)) == (post, "")
  {
    if !EmptyStr(name) {
      var id := ButtonIdOf(post, name);
      assert id[..|post|] == post && id[|post|] == '-';
      assert FirstIndex(id, '-') == |post| by {
        var i := FirstIndex(id, '-');
        assert forall j :: 0 <= j < |post| ==> id[j] == post[j];
      }
    }
  }

  /** Splitting an id and building it again gives the id back, unless the name part is empty. */
  lemma ExtractButtonInfoRoundTrip(id: ButtonId)
    requires '-' !in id || !EmptyStr(ExtractButtonInfo(id).1)
    ensures ButtonIdOf(ExtractButtonInfo(id).0, ExtractButtonInfo(id).1) == id
  {
  }

  // ---------------------------------------------------------------------
  // Completed entries
  // ---------------------------------------------------------------------

  /** `isset($value['completed']) && !empty($value['completed'])`; a scalar has no such key. */
  predicate IsDone(v: Value) {
    v.Record? && v.entry.completed.Some? && v.entry.completed.value != Blank
  }

  /** `isset($value['completed'])` alone, as `user_has_completed_course` tests it. */
  predicate HasCompletedKey(v: Value) {
    v.Record? && v.entry.completed.Some?
  }

  /** The sub-map of activity entries that count as completed. */
  ghost function DoneEntries(a: Activity): map<ButtonId, Value> {
    map k | k in a && IsDone(a[k]) :: a[k]
  }

  /** `get_user_completed`'s loop over the activity map. */
  method GetUserCompleted(a: Activity) returns (done: map<ButtonId, Value>)
    ensures done == DoneEntries(a)
    ensures forall k :: k in done <==> k in a && IsDone(a[k])
    ensures forall k :: k in done ==> done[k] == a[k]
  {
    done := map[];
    var rest := a.Keys;
    while rest != {}
      invariant rest <= a.Keys
      invariant forall k :: k in done <==> k in a && k !in rest && IsDone(a[k])
      invariant forall k :: k in done ==> done[k] == a[k]
      decreases rest
    {
      var k :| k in rest;
      if IsDone(a[k]) {
        done := done[k := a[k]];
      }
      rest := rest - {k};
    }
  }

  // ---------------------------------------------------------------------
  // The site stamp written on every save
  // ---------------------------------------------------------------------

  /** `$data['0-site'] = time()`: the stamp is replaced, every other entry is kept. */
  function WithSiteStamp(a: Activity, now: nat): (r: Activity)
    ensures SiteKey in r && r[SiteKey] == Scalar(At(now))
    ensures forall k :: k != SiteKey ==> (k in r <==> k in a)
    ensures forall k :: k != SiteKey && k in a ==> r[k] == a[k]
  {
    a[SiteKey := Scalar(At(now))]
  }

  /** The site stamp never counts as a completion, and saving changes no other completion. */
  lemma SiteStampNotCompleted(a: Activity, now: nat)
    ensures DoneEntries(WithSiteStamp(a, now)) == DoneEntries(a) - {SiteKey}
  {
    var r := WithSiteStamp(a, now);
    assert DoneEntries(r).Keys == DoneEntries(a).Keys - {SiteKey};
  }

  // ---------------------------------------------------------------------
  // Migration of the legacy 'wp_completed' user meta
  // ---------------------------------------------------------------------

  /**
   * The decoded legacy meta: either a JSON list of completed post ids (the
   * oldest format) or a JSON object of post id to value.
   */
  datatype Legacy = LegacyList(items: seq<PostId>) | LegacyMap(pairs: seq<(ButtonId, Value)>)

  /** The key/value pairs the legacy meta holds once a list has become `p => true`. */
  function LegacyPairs(leg: Legacy): (ps: seq<(ButtonId, Value)>)
    ensures leg.LegacyList? ==> |ps| == |leg.items|
    ensures leg.LegacyList? ==> forall i :: 0 <= i < |ps| ==> ps[i] == (leg.items[i], Scalar(Yes))
  {
    match leg
    case LegacyList(items) => seq(|items|, i requires 0 <= i < |items| => (items[i], Scalar(Yes)))
    case LegacyMap(pairs) => pairs
  }

  /** A PHP array built by assigning the pairs in order: a later key overwrites an earlier one. */
  function ToMap(ps: seq<(ButtonId, Value)>): (m: Activity)
    ensures forall k :: k in m <==> exists i :: 0 <= i < |ps| && ps[i].0 == k
  {
    if ps == [] then map[]
    else
      var m := ToMap(ps[..|ps| - 1]);
      assert forall i :: 0 <= i < |ps| - 1 ==> ps[..|ps| - 1][i] == ps[i];
      m[ps[|ps| - 1].0 := ps[|ps| - 1].1]
  }

  /** `array("completed" => $value)`; an array value lands under 'completed' as an opaque value. */
  function Wrap(v: Value): (r: Value)
    ensures r.Record? && r.entry.firstSeen.None? && r.entry.adminActivity.None?
    ensures r.entry.completed.Some?
    ensures v.Scalar? ==> r.entry.completed.value == v.stamp
  {
    match v
    case Scalar(s) => Record(Entry(None, Some(s), None))
    case Record(_) => Record(Entry(None, Some(Other), None))
  }

  /** The legacy branch of `get_user_activity`: list to map, then scalars wrapped when the first value is one. */
  function MigrateSpec(leg: Legacy): Activity {
    var ps := LegacyPairs(leg);
    var m := ToMap(ps);
    if |ps| > 0 && ps[0].1.Scalar? then map k | k in m :: Wrap(m[k]) else m
  }

  /** The loop turning a legacy list into `p => true` pairs. */
  method ListPairs(items: seq<PostId>) returns (ps: seq<(ButtonId, Value)>)
    ensures ps == LegacyPairs(LegacyList(items))
  {
    ps := [];
    var i := 0;
    while i < |items|
      invariant 0 <= i <= |items|
      invariant ps == LegacyPairs(LegacyList(items))[..i]
    {
      ps := ps + [(items[i], Scalar(Yes))];
      i := i + 1;
    }
  }

  /** Assigning the pairs into an empty array, in order. */
  method AssignAll(ps: seq<(ButtonId, Value)>) returns (m: Activity)
    ensures m == ToMap(ps)
  {
    m := map[];
    var j := 0;
    while j < |ps|
      invariant 0 <= j <= |ps|
      invariant m == ToMap(ps[..j])
    {
      assert ps[..j + 1][..j] == ps[..j];
      m := m[ps[j].0 := ps[j].1];
      j := j + 1;
    }
    assert ps[..|ps|] == ps;
  }

  /** The loop wrapping every value as `array("completed" => $value)`. */
  method WrapAll(m: Activity) returns (a: Activity)
    ensures a == map k | k in m :: Wrap(m[k])
  {
    a := map[];
    var rest := m.Keys;
    while rest != {}
      invariant rest <= m.Keys
      invariant a.Keys == m.Keys - rest
      invariant forall k :: k in a ==> a[k] == Wrap(m[k])
      decreases rest
    {
      var k :| k in rest;
      a := a[k := Wrap(m[k])];
      rest := rest - {k};
    }
  }

  /** The same conversion, step by step as the source rebuilds the arrays. */
  method Migrate(leg: Legacy) returns (a: Activity)
    ensures a == MigrateSpec(leg)
  {
    var ps: seq<(ButtonId, Value)>;
    match leg {
      case LegacyList(items) =>
        ps := ListPairs(items);
      case LegacyMap(pairs) =>
        ps := pairs;
    }
    var m := AssignAll(ps);
    if |ps| > 0 && ps[0].1.Scalar? {
      a := WrapAll(m);
    } else {
      a := m;
    }
  }

  /** The oldest format: every listed post becomes a completed `true` record, and nothing else does. */
  lemma MigrateListCompletes(items: seq<PostId>)
    ensures forall k :: k in DoneEntries(MigrateSpec(LegacyList(items))) <==> k in items
    ensures forall k :: k in MigrateSpec(LegacyList(items)) ==>
      MigrateSpec(LegacyList(items))[k] == Record(Entry(None, Some(Yes), None))
  {
    var ps := LegacyPairs(LegacyList(items));
    forall k ensures k in ToMap(ps) <==> k in items {
      if k in items {
        var i :| 0 <= i < |items| && items[i] == k;
        assert ps[i].0 == k;
      }
    }
    ToMapValues(ps, Scalar(Yes));
  }

  lemma {:induction false} ToMapValues(ps: seq<(ButtonId, Value)>, v: Value)
    requires forall i :: 0 <= i < |ps| ==> ps[i].1 == v
    ensures forall k :: k in ToMap(ps) ==> ToMap(ps)[k] == v
  {
    if ps != [] {
      ToMapValues(ps[..|ps| - 1], v);
    }
  }

  /** When the first legacy value is a scalar, every stored scalar becomes `{completed: value}`. */
  lemma MigrateWrapsScalars(pairs: seq<(ButtonId, Value)>)
    requires |pairs| > 0 && pairs[0].1.Scalar?
    ensures MigrateSpec(LegacyMap(pairs)).Keys == ToMap(pairs).Keys
    ensures forall k :: k in ToMap(pairs) && ToMap(pairs)[k].Scalar? ==>
      MigrateSpec(LegacyMap(pairs))[k] == Record(Entry(None, Some(ToMap(pairs)[k].stamp), None))
    ensures forall k :: k in MigrateSpec(LegacyMap(pairs)) ==> HasCompletedKey(MigrateSpec(LegacyMap(pairs))[k])
  {
  }

  // ---------------------------------------------------------------------
  // Counting completed buttons; post and course status
  // ---------------------------------------------------------------------

  /** How many entries of `bs` (repeats included) are keys of `done`. */
  function CountIn(bs: seq<ButtonId>, done: set<ButtonId>): (c: nat)
    ensures c <= |bs|
  {
    if bs == [] then 0
    else CountIn(bs[..|bs| - 1], done) + (if bs[|bs| - 1] in done then 1 else 0)
  }

  /** Every button is done exactly when the count reaches the number of buttons. */
  lemma {:induction false} CountInAll(bs: seq<ButtonId>, done: set<ButtonId>)
    ensures CountIn(bs, done) == |bs| <==> forall i :: 0 <= i < |bs| ==> bs[i] in done
  {
    if bs != [] {
      var init := bs[..|bs| - 1];
      CountInAll(init, done);
      assert forall i :: 0 <= i < |init| ==> init[i] == bs[i];
    }
  }

  /** No button is done exactly when the count is zero. */
  lemma {:induction false} CountInNone(bs: seq<ButtonId>, done: set<ButtonId>)
    ensures CountIn(bs, done) == 0 <==> forall i :: 0 <= i < |bs| ==> bs[i] !in done
  {
    if bs != [] {
      var init := bs[..|bs| - 1];
      CountInNone(init, done);
      assert forall i :: 0 <= i < |init| ==> init[i] == bs[i];
    }
  }

  /** `post_completion_status` given the completable-posts map and the completed map. */
  ghost function PostStatus(posts: map<PostId, PostMeta>, post: PostId, done: map<ButtonId, Value>): Status {
    if post !in posts then NotCompletable
    else match posts[post].buttons
      case Some(bs) =>
        var c := CountIn(Values(bs), done.Keys);
        if c <= 0 then Incomplete else if c < |bs| then Partial else Completed
      case None =>
        if post in done then Completed else Incomplete
  }

  /** `post_completion_status`: counts the post's completed buttons in a loop. */
  method PostCompletionStatus(posts: map<PostId, PostMeta>, post: PostId, done: map<ButtonId, Value>)
    returns (st: Status)
    ensures st == PostStatus(posts, post, done)
  {
    if post !in posts {
      return NotCompletable;
    }
    var meta := posts[post];
    if meta.buttons.Some? {
      var bs := Values(meta.buttons.value);
      var count := 0;
      var i := 0;
      while i < |bs|
        invariant 0 <= i <= |bs|
        invariant count == CountIn(bs[..i], done.Keys)
      {
        assert bs[..i + 1][..i] == bs[..i];
        if bs[i] in done {
          count := count + 1;
        }
        i := i + 1;
      }
      assert bs[..i] == bs;
      if count <= 0 {
        st := Incomplete;
      } else if count < |bs| {
        st := Partial;
      } else {
        st := Completed;
      }
    } else {
      st := if post in done then Completed else Incomplete;
    }
  }

  /** What each post status means in terms of the post's buttons. */
  lemma PostStatusMeaning(posts: map<PostId, PostMeta>, post: PostId, done: map<ButtonId, Value>)
    ensures PostStatus(posts, post, done) == NotCompletable <==> post !in posts
    ensures post in posts && posts[post].buttons.Some? ==>
      var bs := Values(posts[post].buttons.value);
      && (PostStatus(posts, post, done) == Completed <==>
            |bs| > 0 && forall i :: 0 <= i < |bs| ==> bs[i] in done)
      && (PostStatus(posts, post, done) == Incomplete <==>
            forall i :: 0 <= i < |bs| ==> bs[i] !in done)
      && (PostStatus(posts, post, done) == Partial <==>
            (exists i :: 0 <= i < |bs| && bs[i] in done) && (exists i :: 0 <= i < |bs| && bs[i] !in done))
    ensures post in posts && posts[post].buttons.None? ==>
      (PostStatus(posts, post, done) == Completed <==> post in done)
  {
    if post in posts && posts[post].buttons.Some? {
      var bs := Values(posts[post].buttons.value);
      CountInAll(bs, done.Keys);
      CountInNone(bs, done.Keys);
    }
  }

  /** `course_completion_status` over the course's buttons. */
  ghost function CourseStatus(bs: seq<ButtonId>, done: map<ButtonId, Value>): Status {
    var c := CountIn(bs, done.Keys);
    if c >= |bs| then Completed else if c <= 0 then Incomplete else Partial
  }

  /** `course_completion_status`: counts in a loop, testing "all" before "none". */
  method CourseCompletionStatus(bs: seq<ButtonId>, done: map<ButtonId, Value>) returns (st: Status)
    ensures st == CourseStatus(bs, done)
  {
    var count := 0;
    var i := 0;
    while i < |bs|
      invariant 0 <= i <= |bs|
      invariant count == CountIn(bs[..i], done.Keys)
    {
      assert bs[..i + 1][..i] == bs[..i];
      if bs[i] in done {
        count := count + 1;
      }
      i := i + 1;
    }
    assert bs[..i] == bs;
    if count >= |bs| {
      st := Completed;
    } else if count <= 0 {
      st := Incomplete;
    } else {
      st := Partial;
    }
  }

  /** A course is completed when every button is (so an empty course is); incomplete when it has buttons and none is done. */
  lemma CourseStatusMeaning(bs: seq<ButtonId>, done: map<ButtonId, Value>)
    ensures CourseStatus(bs, done) != NotCompletable
    ensures CourseStatus(bs, done) == Completed <==> forall i :: 0 <= i < |bs| ==> bs[i] in done
    ensures CourseStatus(bs, done) == Incomplete <==>
      |bs| > 0 && forall i :: 0 <= i < |bs| ==> bs[i] !in done
    ensures bs == [] ==> CourseStatus(bs, done) == Completed
  {
    CountInAll(bs, done.Keys);
    CountInNone(bs, done.Keys);
  }

  /** `user_has_completed_course`: the course has buttons and each has a 'completed' key. */
  ghost predicate HasCompletedCourse(a: Activity, bs: seq<ButtonId>) {
    |bs| > 0 && forall i :: 0 <= i < |bs| ==> bs[i] in a && HasCompletedKey(a[bs[i]])
  }

  /** `user_has_completed_course`: returns false at the first button without a 'completed' key. */
  method UserHasCompletedCourse(a: Activity, bs: seq<ButtonId>) returns (r: bool)
    ensures r == HasCompletedCourse(a, bs)
  {
    if |bs| <= 0 {
      return false;
    }
    var i := 0;
    while i < |bs|
      invariant 0 <= i <= |bs|
      invariant forall j :: 0 <= j < i ==> bs[j] in a && HasCompletedKey(a[bs[j]])
    {
      if bs[i] !in a || !HasCompletedKey(a[bs[i]]) {
        return false;
      }
      i := i + 1;
    }
    return true;
  }

  /** A non-empty course whose status is completed has been completed in the weaker sense too. */
  lemma CourseStatusImpliesHasCompleted(a: Activity, bs: seq<ButtonId>)
    requires |bs| > 0 && CourseStatus(bs, DoneEntries(a)) == Completed
    ensures HasCompletedCourse(a, bs)
  {
    CourseStatusMeaning(bs, DoneEntries(a));
    forall i | 0 <= i < |bs| ensures bs[i] in a && HasCompletedKey(a[bs[i]]) {
      assert bs[i] in DoneEntries(a);
    }
  }

  // ---------------------------------------------------------------------
  // Progress
  // ---------------------------------------------------------------------

  lemma MulMono(k: nat, a: nat, b: nat)
    requires a <= b
    ensures k * a <= k * b
  {
  }

  /** `get_percentage`: `round(100 * done / total)` with halves rounded up, 0 for no buttons. */
  function Percentage(bs: seq<ButtonId>, done: set<ButtonId>): (r: nat)
    ensures r <= 100
    ensures |bs| == 0 ==> r == 0
    ensures |bs| > 0 ==>
      (2 * |bs|) * r <= 200 * CountIn(bs, done) + |bs| < (2 * |bs|) * (r + 1)
  {
    if |bs| > 0 then
      var c := CountIn(bs, done);
      var m := 2 * |bs|;
      var x := 200 * c + |bs|;
      var r := x / m;
      assert m * r <= x < m * (r + 1);
      assert r <= 100 by {
        if r > 100 {
          MulMono(m, 101, r);
        }
      }
      r
    else 0
  }

  /** No completed button gives 0%, all completed gives 100%. */
  lemma PercentageEnds(bs: seq<ButtonId>, done: set<ButtonId>)
    ensures CountIn(bs, done) == 0 ==> Percentage(bs, done) == 0
    ensures |bs| > 0 && (forall i :: 0 <= i < |bs| ==> bs[i] in done) ==> Percentage(bs, done) == 100
  {
    CountInAll(bs, done);
    var n := |bs|;
    var m := 2 * n;
    var r := Percentage(bs, done);
    if n > 0 && CountIn(bs, done) == 0 {
      assert m * r <= n;
      if r >= 1 {
        MulMono(m, 1, r);
      }
    }
    if n > 0 && CountIn(bs, done) == n {
      assert 201 * n < m * (r + 1);
      if r + 1 <= 100 {
        MulMono(m, r + 1, 100);
      }
    }
  }

  /** `progress_ratio_cb`: "done/total", or nothing when there are no buttons. */
  function Ratio(bs: seq<ButtonId>, done: set<ButtonId>): (r: Option<(nat, nat)>)
    ensures r.None? <==> |bs| == 0
    ensures r.Some? ==> r.value.0 <= r.value.1 == |bs|
  {
    if |bs| <= 0 then None else Some((CountIn(bs, done), |bs|))
  }

  /** The percentage is the ratio rounded to a whole percent. */
  lemma PercentageOfRatio(bs: seq<ButtonId>, done: set<ButtonId>)
    requires Ratio(bs, done).Some?
    ensures var (c, n) := Ratio(bs, done).value;
      (2 * n) * Percentage(bs, done) <= 200 * c + n < (2 * n) * (Percentage(bs, done) + 1)
  {
  }

  // ---------------------------------------------------------------------
  // Settings: enabled post types and course classes
  // ---------------------------------------------------------------------

  /** `get_enabled_post_types`; `option` is the stored setting, `None` when unset. */
  function EnabledPostTypes(option: Option<string>, customTypes: seq<string>): (r: seq<string>)
    ensures |r| >= 1
    ensures option.GetOr("page_post") == "page_post" ==> r == ["post", "page"]
    ensures option.GetOr("page_post") == "all" ==>
      forall t :: t in r <==> t in customTypes || t == "post" || t == "page"
    ensures option.GetOr("page_post") !in {"page_post", "all"} ==> Join(',', r) == option.value
  {
    var setting := option.GetOr("page_post");
    if setting == "page_post" then ["post", "page"]
    else if setting == "all" then customTypes + ["post", "page"]
    else
      JoinExplode(',', setting);
      Explode(',', setting)
  }

  /** The argument of `get_course_class`: nothing, a string, or a shortcode attribute array. */
  datatype CourseArg = NoArg | Text(text: string) | Atts(course: Option<AttValue>)

  /** An attribute value: a string, or PHP `false`. */
  datatype AttValue = Str(s: string) | False

  /** `get_course_class`; `sanitize` is WordPress's `sanitize_title`. */
  function CourseClass(arg: CourseArg, siteName: string, sanitize: string -> string): (r: string)
    ensures arg.Atts? && arg.course.Some? && arg.course.value.Str? && Lower(arg.course.value.s) == "all" ==>
      r == "all-courses"
    ensures arg.Atts? && arg.course.Some? && arg.course.value.Str? && Lower(arg.course.value.s) != "all" ==>
      r == Trim(sanitize(Lower(arg.course.value.s)))
    ensures arg.Text? && !EmptyStr(arg.text) ==> r == Trim(sanitize(Lower(arg.text)))
    ensures arg == NoArg || (arg.Text? && EmptyStr(arg.text)) || arg == Atts(None) || arg == Atts(Some(False)) ==>
      r == Trim(sanitize(Lower(siteName)))
    ensures r != "all-courses" ==> r == [] || (!IsTrimmed(r[0]) && !IsTrimmed(r[|r| - 1]))
  {
    var course :=
      match arg
      case Text(t) => if EmptyStr(t) then siteName else t
      case Atts(Some(Str(c))) => if Lower(c) == "all" then "all" else c
      case _ => siteName;
    if arg.Atts? && arg.course.Some? && arg.course.value.Str? && Lower(arg.course.value.s) == "all"
    then "all-courses"
    else
      var t := TrimLeft(sanitize(Lower(course)));
      var r := TrimRight(t);
      assert r != [] ==> r[0] == t[0];
      r
  }

  /** The course class ignores letter case. */
  lemma CourseClassCaseInsensitive(c: string, siteName: string, sanitize: string -> string)
    ensures CourseClass(Atts(Some(Str(c))), siteName, sanitize) ==
            CourseClass(Atts(Some(Str(Lower(c)))), siteName, sanitize)
  {
    LowerIdempotent(c);
  }

  /** A course given as text or as the `course` attribute names the same class, unless it spells "all". */
  lemma CourseClassTextOrAttribute(c: string, siteName: string, sanitize: string -> string)
    requires !EmptyStr(c) && Lower(c) != "all"
    ensures CourseClass(Atts(Some(Str(c))), siteName, sanitize) == CourseClass(Text(c), siteName, sanitize)
    ensures CourseClass(Text(""), siteName, sanitize) == CourseClass(NoArg, siteName, sanitize)
    ensures CourseClass(Atts(Some(False)), siteName, sanitize) == CourseClass(NoArg, siteName, sanitize)
  {
  }

  // ---------------------------------------------------------------------
  // The store: WordPress user meta and post meta
  // ---------------------------------------------------------------------

  /** The activity `get_user_activity` yields for `u`: the stored map, or the migrated legacy meta. */
  ghost function CurrentActivity(activity: map<UserId, Activity>, legacy: map<UserId, Legacy>, u: UserId): Activity {
    if u in activity then activity[u]
    else if u in legacy then MigrateSpec(legacy[u])
    else MigrateSpec(LegacyList([]))
  }

  /** The stored activity after `get_user_activity(u)`: a migrated map is saved with its stamp. */
  ghost function ReadBack(activity: map<UserId, Activity>, legacy: map<UserId, Legacy>, u: UserId, now: nat)
    : (r: map<UserId, Activity>)
    ensures u in r && r[u] == (if u in activity then activity[u] else WithSiteStamp(CurrentActivity(activity, legacy, u), now))
    ensures forall v :: v != u ==> (v in r <==> v in activity) && (v in activity ==> r[v] == activity[v])
  {
    if u in activity then activity else activity[u := WithSiteStamp(CurrentActivity(activity, legacy, u), now)]
  }

  /**
   * The persisted state: user meta 'wpcomplete' (decoded), the legacy user
   * meta 'wp_completed' (decoded) and the 'wpcomplete' post meta of each
   * completable post.
   */
  class Store {
    var activity: map<UserId, Activity>
    var legacy: map<UserId, Legacy>
    var posts: map<PostId, PostMeta>

    constructor(activity: map<UserId, Activity>, legacy: map<UserId, Legacy>, posts: map<PostId, PostMeta>)
      ensures this.activity == activity && this.legacy == legacy && this.posts == posts
    {
      this.activity := activity;
      this.legacy := legacy;
      this.posts := posts;
    }

    ghost function Current(u: UserId): Activity
      reads this
    {
      CurrentActivity(activity, legacy, u)
    }

    /** `set_user_activity`: stamps the map with the save time and stores it. */
    method SetUserActivity(u: UserId, data: Activity, now: nat)
      modifies this
      ensures activity == old(activity)[u := WithSiteStamp(data, now)]
      ensures legacy == old(legacy) && posts == old(posts)
    {
      activity := activity[u := WithSiteStamp(data, now)];
    }

    /**
     * `get_user_activity`: the stored map when there is one; otherwise the
     * legacy meta is migrated, saved with a site stamp, and returned unstamped.
     */
    method GetUserActivity(u: UserId, now: nat) returns (a: Activity)
      modifies this
      ensures a == old(Current(u))
      ensures activity == ReadBack(old(activity), old(legacy), u, now)
      ensures legacy == old(legacy) && posts == old(posts)
    {
      if u in activity {
        return activity[u];
      }
      var leg := if u in legacy then legacy[u] else LegacyList([]);
      a := Migrate(leg);
      SetUserActivity(u, a, now);
    }

    /** `update_post_meta($post_id, 'wpcomplete', ...)`. */
    method UpdatePostMeta(post: PostId, meta: PostMeta)
      modifies this
      ensures posts == old(posts)[post := meta]
      ensures activity == old(activity) && legacy == old(legacy)
    {
      posts := posts[post := meta];
    }
  }
}

/**
 * The admin side's handling of a post's registered buttons: the post-type
 * setting, scanning a post's content for button shortcodes, the metabox
 * cleanup, deleting a button and the bulk actions that make posts
 * completable or move them to a course.
 */
module AdminButtons {
  import opened Php
  import opened Common

  // ---------------------------------------------------------------------
  // Post-type setting
  // ---------------------------------------------------------------------

  /** What the settings form submits: a selection of post types, or a plain value. */
  datatype PostTypesInput = Selected(types: seq<string>) | Raw(text: string)

  /** `sanitize_post_types_cb`: a selection is stored comma-joined, anything else as given. */
  function SanitizePostTypes(input: PostTypesInput): (r: string)
    ensures input.Raw? ==> r == input.text
    ensures input.Selected? && |input.types| == 1 ==> r == input.types[0]
    ensures input.Selected? && input.types == [] ==> r == ""
  {
    match input
    case Selected(ts) => Join(',', ts)
    case Raw(t) => t
  }

  /** Reading the stored setting back gives the selection, unless it spells a preset. */
  lemma SanitizedPostTypesReadBack(ts: seq<string>, customTypes: seq<string>)
    requires |ts| >= 1 && forall i :: 0 <= i < |ts| ==> ',' !in ts[i]
    requires Join(',', ts) != "page_post" && Join(',', ts) != "all"
    ensures EnabledPostTypes(Some(SanitizePostTypes(Selected(ts))), customTypes) == ts
  {
    ExplodeJoin(',', ts);
  }

  // ---------------------------------------------------------------------
  // Button shortcodes found in a post's content
  // ---------------------------------------------------------------------

  /**
   * A button shortcode as the shortcode regex and the XML attribute parse
   * leave it: with at most one parsed argument, with its attributes in
   * order, or one whose attributes could not be parsed even after the
   * quote fix (the thrown `UnexpectedValueException`).
   */
  datatype Shortcode = Bare | Attrs(pairs: seq<(string, string)>) | Malformed

  /** `name` is read as `id`, `post` as `post_id`. */
  function RenameKey(k: string): string {
    if k == "name" then "id" else if k == "post" then "post_id" else k
  }

  /** The attribute cleanup loop: renamed keys, a later attribute overwriting an earlier one. */
  function Renamed(pairs: seq<(string, string)>): (args: map<string, string>)
    ensures forall i :: 0 <= i < |pairs| ==> RenameKey(pairs[i].0) in args
    ensures |pairs| > 0 ==> args[RenameKey(pairs[|pairs| - 1].0)] == pairs[|pairs| - 1].1
  {
    if pairs == [] then map[]
    else
      var init := pairs[..|pairs| - 1];
      var last := pairs[|pairs| - 1];
      assert forall i :: 0 <= i < |init| ==> init[i] == pairs[i];
      Renamed(init)[RenameKey(last.0) := last.1]
  }

  /** Only the renamed keys of the attributes are set. */
  lemma {:induction false} RenamedKeys(pairs: seq<(string, string)>, k: string)
    requires forall i :: 0 <= i < |pairs| ==> RenameKey(pairs[i].0) != k
    ensures k !in Renamed(pairs)
  {
    if pairs != [] {
      var init := pairs[..|pairs| - 1];
      assert forall i :: 0 <= i < |init| ==> init[i] == pairs[i];
      RenamedKeys(init, k);
    }
  }

  /** A key holds the value of the last attribute renamed to it. */
  lemma {:induction false} RenamedLast(pairs: seq<(string, string)>, i: nat)
    requires i < |pairs|
    requires forall j :: i < j < |pairs| ==> RenameKey(pairs[j].0) != RenameKey(pairs[i].0)
    ensures Renamed(pairs)[RenameKey(pairs[i].0)] == pairs[i].1
  {
    if i < |pairs| - 1 {
      var init := pairs[..|pairs| - 1];
      assert forall j :: 0 <= j < |init| ==> init[j] == pairs[j];
      RenamedLast(init, i);
    }
  }

  /** What one shortcode contributes to the post's buttons. */
  datatype CodeResult = Skip | Button(id: ButtonId) | Fail

  /**
   * One shortcode: a bare one is the default button; one naming another
   * post is skipped; otherwise its id (or the default) on this post.
   */
  function CodeButton(pid: PostId, code: Shortcode): (r: CodeResult)
    ensures r == Fail <==> code == Malformed
    ensures code == Bare ==> r == Button(pid)
    ensures r.Button? ==> StartsWith(r.id, pid)
    ensures code.Attrs? ==>
      (r == Skip <==> "post_id" in Renamed(code.pairs) && !EmptyStr(Renamed(code.pairs)["post_id"]))
  {
    match code
    case Bare => Button(ButtonIdOf(pid, ""))
    case Malformed => Fail
    case Attrs(pairs) =>
      var args := Renamed(pairs);
      if "post_id" in args && !EmptyStr(args["post_id"]) then Skip
      else if "id" in args && !EmptyStr(args["id"]) then Button(ButtonIdOf(pid, args["id"]))
      else Button(ButtonIdOf(pid, ""))
  }

  /** `name` works as `id`, and `post` as `post_id`. */
  lemma ShortcodeAliases(pid: PostId, name: string, post: string)
    requires !EmptyStr(name) && !EmptyStr(post)
    ensures CodeButton(pid, Attrs([("name", name)])) == Button(pid + "-" + name)
    ensures CodeButton(pid, Attrs([("post", post), ("name", name)])) == Skip
    ensures CodeButton(pid, Attrs([("name", "")])) == Button(pid)
  {
    assert Renamed([("name", name)]) == map["id" := name] by {
      assert [("name", name)][..0] == [];
    }
    var two := [("post", post), ("name", name)];
    assert Renamed(two) == map["post_id" := post, "id" := name] by {
      assert two[..1] == [("post", post)];
      assert two[..1][..0] == [];
    }
    assert Renamed([("name", "")]) == map["id" := ""] by {
      assert [("name", "")][..0] == [];
    }
  }

  /**
   * For a shortcode aimed at no other post, the last `id` or `name`
   * attribute decides the button: `<post>-<value>` when its value is not
   * empty, the default button when it is.
   */
  lemma CodeButtonNamed(pid: PostId, pairs: seq<(string, string)>, i: nat)
    requires forall j :: 0 <= j < |pairs| ==> RenameKey(pairs[j].0) != "post_id"
    requires i < |pairs| && RenameKey(pairs[i].0) == "id"
    requires forall j :: i < j < |pairs| ==> RenameKey(pairs[j].0) != "id"
    ensures !EmptyStr(pairs[i].1) ==> CodeButton(pid, Attrs(pairs)) == Button(pid + "-" + pairs[i].1)
    ensures EmptyStr(pairs[i].1) ==> CodeButton(pid, Attrs(pairs)) == Button(pid)
  {
    RenamedKeys(pairs, "post_id");
    RenamedLast(pairs, i);
  }

  /** A shortcode with neither `id` nor `name`, aimed at no other post, is the default button. */
  lemma CodeButtonUnnamed(pid: PostId, pairs: seq<(string, string)>)
    requires forall j :: 0 <= j < |pairs| ==> RenameKey(pairs[j].0) != "post_id" && RenameKey(pairs[j].0) != "id"
    ensures CodeButton(pid, Attrs(pairs)) == Button(pid)
  {
    RenamedKeys(pairs, "post_id");
    RenamedKeys(pairs, "id");
  }

  /** The buttons gathered from the shortcodes, in order, or None when one is malformed. */
  function Collect(pid: PostId, bs: PhpList, codes: seq<Shortcode>): (r: Option<PhpList>)
    ensures r.None? <==> Malformed in codes
    ensures r.Some? ==> forall i :: 0 <= i < |codes| && CodeButton(pid, codes[i]).Button? ==>
      CodeButton(pid, codes[i]).id in Values(r.value)
    ensures r.Some? ==> forall v :: v in Values(r.value) ==> v in Values(bs) || StartsWith(v, pid)
  {
    if codes == [] then Some(bs)
    else
      var init := codes[..|codes| - 1];
      var last := codes[|codes| - 1];
      assert codes == init + [last];
      assert forall i :: 0 <= i < |init| ==> init[i] == codes[i];
      var acc := Collect(pid, bs, init);
      if acc.None? then None
      else match CodeButton(pid, last)
        case Fail => None
        case Skip => acc
        case Button(id) => Some(Push(acc.value, id))
  }

  /** `array_unique`, then the loop that drops buttons not starting with the post id. */
  function Cleaned(bs: PhpList, pid: PostId): (r: PhpList)
    ensures DistinctVals(Values(r))
    ensures forall s :: s in r ==> s in bs && StartsWith(s.val, pid)
    ensures forall v :: v in Values(bs) && StartsWith(v, pid) ==> v in Values(r)
  {
    var u := Unique(bs);
    KeepPrefixedDistinct(u, pid);
    var r := KeepPrefixed(u, pid);
    forall v | v in Values(bs) && StartsWith(v, pid) ensures v in Values(r) {
      InValues(u, v);
      var s :| s in u && s.val == v;
      InValues(r, v);
    }
    r
  }

  /** Only a non-empty list that is not just the default button is stored. */
  predicate Stores(bs: PhpList, pid: PostId) {
    |bs| > 0 && !SameArray(bs, ListOf([pid]))
  }

  /**
   * `add_multiple_buttons_to_meta`; `codes` stands for the button shortcodes
   * the regex and the attribute parse find in `content`. None is the
   * exception the parse failure throws.
   */
  function MultipleButtons(pid: PostId, meta: PostMeta, content: string, codes: seq<Shortcode>): (r: Option<PostMeta>)
    ensures '[' !in content ==> r == Some(meta)
    ensures r.None? <==> '[' in content && Malformed in codes
    ensures r.Some? ==> r.value.course == meta.course && r.value.redirect == meta.redirect
    ensures r.Some? && r.value.buttons != meta.buttons ==> r.value.buttons.Some?
    ensures r.Some? && r.value.buttons != meta.buttons && r.value.buttons.Some? ==>
      var bs := r.value.buttons.value;
      && DistinctVals(Values(bs))
      && (forall s :: s in bs ==> StartsWith(s.val, pid))
      && Stores(bs, pid)
    ensures '[' in content && Malformed !in codes ==>
      var bs := Cleaned(Collect(pid, meta.buttons.GetOr([]), codes).value, pid);
      r == if Stores(bs, pid) then Some(meta.(buttons := Some(bs))) else Some(meta)
  {
    if '[' !in content then Some(meta)
    else
      var collected := Collect(pid, meta.buttons.GetOr([]), codes);
      if collected.None? then None
      else
        var bs := Cleaned(collected.value, pid);
        if Stores(bs, pid) then Some(meta.(buttons := Some(bs))) else Some(meta)
  }

  /** Every button a shortcode names ends up registered, whenever a list is stored. */
  lemma MultipleButtonsComplete(pid: PostId, meta: PostMeta, content: string, codes: seq<Shortcode>)
    requires MultipleButtons(pid, meta, content, codes).Some?
    requires MultipleButtons(pid, meta, content, codes).value.buttons != meta.buttons
    requires MultipleButtons(pid, meta, content, codes).value.buttons.Some?
    ensures forall i :: 0 <= i < |codes| && CodeButton(pid, codes[i]).Button? ==>
      CodeButton(pid, codes[i]).id in Values(MultipleButtons(pid, meta, content, codes).value.buttons.value)
  {
  }

  /**
   * A post whose content names a button other than its default one gets a
   * stored list, and that list holds every button the content names.
   */
  lemma MultipleButtonsStores(pid: PostId, meta: PostMeta, content: string, codes: seq<Shortcode>, i: nat)
    requires '[' in content && Malformed !in codes
    requires i < |codes| && CodeButton(pid, codes[i]).Button? && CodeButton(pid, codes[i]).id != pid
    ensures MultipleButtons(pid, meta, content, codes).Some?
    ensures MultipleButtons(pid, meta, content, codes).value.buttons.Some?
    ensures forall j :: 0 <= j < |codes| && CodeButton(pid, codes[j]).Button? ==>
      CodeButton(pid, codes[j]).id in Values(MultipleButtons(pid, meta, content, codes).value.buttons.value)
  {
    var collected := Collect(pid, meta.buttons.GetOr([]), codes).value;
    var bs := Cleaned(collected, pid);
    var x := CodeButton(pid, codes[i]).id;
    assert x in Values(bs);
    InValues(bs, x);
    var sx :| sx in bs && sx.val == x;
    assert sx !in ListOf([pid]);
    assert Stores(bs, pid);
  }

  /** The unset loop over a buttons array, dropping the slots whose value lacks the prefix. */
  method DropUnprefixed(l: PhpList, prefix: string) returns (r: PhpList)
    ensures r == KeepPrefixed(l, prefix)
  {
    r := [];
    var i := 0;
    while i < |l|
      invariant 0 <= i <= |l|
      invariant r + KeepPrefixed(l[i..], prefix) == KeepPrefixed(l, prefix)
    {
      assert l[i..][1..] == l[i + 1..];
      if StartsWith(l[i].val, prefix) {
        r := r + [l[i]];
      }
      i := i + 1;
    }
  }

  /** `add_multiple_buttons_to_meta` as written: a loop over the shortcodes, then the cleanup. */
  method AddMultipleButtonsToMeta(pid: PostId, meta: PostMeta, content: string, codes: seq<Shortcode>)
    returns (r: Option<PostMeta>)
    ensures r == MultipleButtons(pid, meta, content, codes)
  {
    if '[' !in content {
      return Some(meta);
    }
    var buttons := meta.buttons.GetOr([]);
    var i := 0;
    while i < |codes|
      invariant 0 <= i <= |codes|
      invariant Collect(pid, meta.buttons.GetOr([]), codes[..i]) == Some(buttons)
    {
      assert codes[..i + 1][..i] == codes[..i];
      var c := CodeButton(pid, codes[i]);
      if c == Fail {
        assert Malformed in codes;
        return None;
      }
      if c.Button? {
        buttons := Push(buttons, c.id);
      }
      i := i + 1;
    }
    assert codes[..i] == codes;
    var bs := DropUnprefixed(Unique(buttons), pid);
    if |bs| > 0 && !SameArray(bs, ListOf([pid])) {
      r := Some(meta.(buttons := Some(bs)));
    } else {
      r := Some(meta);
    }
  }

  // ---------------------------------------------------------------------
  // Metabox cleanup
  // ---------------------------------------------------------------------

  /** The buttons list the metabox reads: the stored list, or an empty one. */
  function StoredButtons(meta: PostMeta): PhpList {
    meta.buttons.GetOr([])
  }

  /** The metabox's cleanup of a completable post: deduplicated, prefixed buttons, saved when they differ. */
  method MetaboxCleanup(s: Store, pid: PostId)
    modifies s
    ensures pid in old(s.posts) && !SameArray(StoredButtons(old(s.posts)[pid]), Cleaned(StoredButtons(old(s.posts)[pid]), pid)) ==>
      s.posts == old(s.posts)[pid := old(s.posts)[pid].(buttons := Some(Cleaned(StoredButtons(old(s.posts)[pid]), pid)))]
    ensures pid !in old(s.posts) || SameArray(StoredButtons(old(s.posts)[pid]), Cleaned(StoredButtons(old(s.posts)[pid]), pid)) ==>
      s.posts == old(s.posts)
    ensures s.activity == old(s.activity) && s.legacy == old(s.legacy)
  {
    if pid !in s.posts {
      return;
    }
    var meta := s.posts[pid];
    var bs := StoredButtons(meta);
    var cleaned := DropUnprefixed(Unique(bs), pid);
    if !SameArray(bs, cleaned) {
      s.UpdatePostMeta(pid, meta.(buttons := Some(cleaned)));
    }
  }

  /** A cleaned list is clean: opening the metabox a second time saves nothing. */
  lemma CleanedStable(bs: PhpList, pid: PostId)
    ensures SameArray(Cleaned(bs, pid), Cleaned(Cleaned(bs, pid), pid))
  {
    var c := Cleaned(bs, pid);
    var cc := Cleaned(c, pid);
    forall s | s in c ensures s in cc {
      InValues(c, s.val);
      assert s.val in Values(cc);
      InValues(cc, s.val);
      var t :| t in cc && t.val == s.val;
      SameValSameSlot(c, s, t);
    }
  }

  // ---------------------------------------------------------------------
  // Deleting a button
  // ---------------------------------------------------------------------

  /** `unset($buttons[array_search($button, $buttons)])`: a missing button gives key `false`, that is 0. */
  function WithoutButton(bs: PhpList, b: string): (r: PhpList)
    ensures b !in Values(bs) ==> r == RemoveKey(bs, 0)
    ensures forall s :: s in r ==> s in bs
  {
    RemoveKey(bs, Search(bs, b).GetOr(0))
  }

  /** In a proper array, deleting a present button removes that value and keeps every other slot. */
  lemma WithoutButtonRemoves(bs: PhpList, b: string)
    requires DistinctKeys(bs) && DistinctVals(Values(bs)) && b in Values(bs)
    ensures b !in Values(WithoutButton(bs, b))
    ensures forall s :: s in bs && s.val != b ==> s in WithoutButton(bs, b)
  {
    SearchFirst(bs, b);
    var k := Search(bs, b).value;
    var i :| FirstSlot(bs, b, i, k);
    var r := WithoutButton(bs, b);
    forall s | s in bs && s.val != b ensures s in r {
      var j :| 0 <= j < |bs| && bs[j] == s;
      SameKeySameIndex(bs, i, j);
    }
    forall t | t in r ensures t.val != b {
      var j :| 0 <= j < |bs| && bs[j] == t;
      SameValueSameIndex(bs, i, j);
    }
    InValues(r, b);
  }

  lemma SameKeySameIndex(bs: PhpList, i: nat, j: nat)
    requires DistinctKeys(bs) && i < |bs| && j < |bs|
    ensures bs[j].key == bs[i].key ==> i == j
  {
  }

  lemma SameValueSameIndex(bs: PhpList, i: nat, j: nat)
    requires DistinctVals(Values(bs)) && i < |bs| && j < |bs|
    ensures bs[j].val == bs[i].val ==> i == j
  {
    var vs := Values(bs);
    assert vs[i] == bs[i].val && vs[j] == bs[j].val;
  }

  /** The quirk: asking to delete a button that is not there deletes the slot with key 0. */
  lemma WithoutAbsentButton(bs: PhpList, b: string, v: string)
    requires b !in Values(bs) && Slot(0, v) in bs
    ensures Slot(0, v) !in WithoutButton(bs, b)
    ensures |WithoutButton(bs, b)| < |bs|
  {
    RemoveKeyShrinks(bs, 0, Slot(0, v));
  }

  lemma {:induction false} RemoveKeyShrinks(l: PhpList, k: nat, s: Slot)
    requires s in l && s.key == k
    ensures |RemoveKey(l, k)| < |l|
  {
    if l[0] != s {
      RemoveKeyShrinks(l[1..], k, s);
    }
  }

  /**
   * `delete_button`: without a button, the post's list is emptied (a post
   * without meta gets a meta holding just the empty list); with one, its
   * slot is unset. Searching a missing list is a PHP type error. `stored`
   * says whether the meta was written; it is not the `$saved` result of
   * `update_post_meta`, which is also false when the value did not change.
   */
  method DeleteButton(s: Store, pid: PostId, button: Option<string>) returns (stored: bool)
    modifies s
    ensures stored <==> button.None? || (pid in old(s.posts) && old(s.posts)[pid].buttons.Some?)
    ensures button.None? ==>
      s.posts == old(s.posts)[pid := (if pid in old(s.posts) then old(s.posts)[pid] else PostMeta(None, None, None)).(buttons := Some([]))]
    ensures stored && button.Some? ==>
      s.posts == old(s.posts)[pid := old(s.posts)[pid].(buttons := Some(WithoutButton(old(s.posts)[pid].buttons.value, button.value)))]
    ensures !stored ==> s.posts == old(s.posts)
    ensures s.activity == old(s.activity) && s.legacy == old(s.legacy)
  {
    var meta := if pid in s.posts then s.posts[pid] else PostMeta(None, None, None);
    if button.Some? {
      if pid !in s.posts || meta.buttons.None? {
        return false;
      }
      s.UpdatePostMeta(pid, meta.(buttons := Some(WithoutButton(meta.buttons.value, button.value))));
    } else {
      s.UpdatePostMeta(pid, meta.(buttons := Some([])));
    }
    stored := true;
  }

  // ---------------------------------------------------------------------
  // Bulk actions
  // ---------------------------------------------------------------------

  /**
   * One post of the bulk action: `course` is None for "completable" and
   * Some(name) for "course::name". Returns the new posts map and whether
   * the post was marked, or None when the shortcode scan throws.
   */
  function BulkStep(posts: map<PostId, PostMeta>, pid: PostId, course: Option<string>,
                    content: PostId -> string, codes: PostId -> seq<Shortcode>)
    : (r: Option<(map<PostId, PostMeta>, bool)>)
    ensures r.Some? ==> forall q :: q != pid ==> (q in r.value.0 <==> q in posts) && (q in posts ==> r.value.0[q] == posts[q])
    ensures r.Some? ==> pid in r.value.0
    ensures r.Some? && course.Some? ==> r.value.0[pid].course == course
    ensures r.Some? && !r.value.1 ==> r.value.0 == posts
  {
    var start :=
      if pid !in posts then Some(PostMeta(course, None, None))
      else if course.Some? && posts[pid].course != course then Some(posts[pid].(course := course))
      else None;
    if start.None? then Some((posts, false))
    else
      var meta := MultipleButtons(pid, start.value, content(pid), codes(pid));
      if meta.None? then None else Some((posts[pid := meta.value], true))
  }

  /** The posts and count after the bulk loop has handled `ids`; `failed` once a scan threw. */
  function Bulk(posts: map<PostId, PostMeta>, ids: seq<PostId>, course: Option<string>,
                content: PostId -> string, codes: PostId -> seq<Shortcode>)
    : (r: (map<PostId, PostMeta>, nat, bool))
    ensures r.1 <= |ids|
  {
    if ids == [] then (posts, 0, false)
    else BulkNext(Bulk(posts, ids[..|ids| - 1], course, content, codes), ids[|ids| - 1], course, content, codes)
  }

  /** One turn of the bulk loop: nothing after a throw, else one BulkStep, counted when it marks the post. */
  function BulkNext(acc: (map<PostId, PostMeta>, nat, bool), pid: PostId, course: Option<string>,
                    content: PostId -> string, codes: PostId -> seq<Shortcode>)
    : (map<PostId, PostMeta>, nat, bool)
  {
    var (p, n, failed) := acc;
    if failed then (p, n, true)
    else
      var step := BulkStep(p, pid, course, content, codes);
      if step.None? then (p, n, true)
      else (step.value.0, if step.value.1 then n + 1 else n, false)
  }

  /** The body of the bulk loop for one post. */
  method BulkPost(s: Store, pid: PostId, course: Option<string>,
                  content: PostId -> string, codes: PostId -> seq<Shortcode>)
    returns (marked: bool, failed: bool)
    modifies s
    ensures BulkStep(old(s.posts), pid, course, content, codes) == if failed then None else Some((s.posts, marked))
    ensures failed ==> s.posts == old(s.posts)
    ensures s.activity == old(s.activity) && s.legacy == old(s.legacy)
  {
    marked, failed := false, false;
    var start: Option<PostMeta> := None;
    if pid !in s.posts {
      start := Some(PostMeta(course, None, None));
    } else if course.Some? && s.posts[pid].course != course {
      start := Some(s.posts[pid].(course := course));
    }
    if start.Some? {
      var meta := AddMultipleButtonsToMeta(pid, start.value, content(pid), codes(pid));
      if meta.None? {
        return false, true;
      }
      s.UpdatePostMeta(pid, meta.value);
      marked := true;
    }
  }

  /** One turn of the bulk loop before any throw: handle the post and count it when it was marked. */
  method BulkTurn(s: Store, pid: PostId, marked: nat, course: Option<string>,
                  content: PostId -> string, codes: PostId -> seq<Shortcode>)
    returns (count: nat, failed: bool)
    modifies s
    ensures (s.posts, count, failed) == BulkNext((old(s.posts), marked, false), pid, course, content, codes)
    ensures s.activity == old(s.activity) && s.legacy == old(s.legacy)
  {
    BulkNextFresh((s.posts, marked, false), pid, course, content, codes);
    var m, f := BulkPost(s, pid, course, content, codes);
    if f {
      count, failed := marked, true;
    } else {
      count, failed := if m then marked + 1 else marked, false;
    }
  }

  /** `save_bulk_completable`'s loop over the selected posts. */
  method BulkAssign(s: Store, ids: seq<PostId>, course: Option<string>,
                    content: PostId -> string, codes: PostId -> seq<Shortcode>)
    returns (marked: nat, failed: bool)
    modifies s
    ensures (s.posts, marked, failed) == Bulk(old(s.posts), ids, course, content, codes)
    ensures s.activity == old(s.activity) && s.legacy == old(s.legacy)
  {
    marked := 0;
    failed := false;
    var i := 0;
    while i < |ids| && !failed
      invariant 0 <= i <= |ids|
      invariant (s.posts, marked, failed) == Bulk(old(s.posts), ids[..i], course, content, codes)
      invariant s.activity == old(s.activity) && s.legacy == old(s.legacy)
    {
      assert ids[..i + 1] == ids[..i] + [ids[i]];
      BulkSnoc(old(s.posts), ids[..i], ids[i], course, content, codes);
      marked, failed := BulkTurn(s, ids[i], marked, course, content, codes);
      i := i + 1;
    }
    if failed {
      BulkStopped(old(s.posts), ids, i, course, content, codes);
    } else {
      assert ids[..i] == ids;
    }
  }

  /** One more post: the loop's step after the posts before it. */
  lemma BulkSnoc(posts: map<PostId, PostMeta>, ids: seq<PostId>, p: PostId, course: Option<string>,
                 content: PostId -> string, codes: PostId -> seq<Shortcode>)
    ensures Bulk(posts, ids + [p], course, content, codes) == BulkNext(Bulk(posts, ids, course, content, codes), p, course, content, codes)
  {
    assert (ids + [p])[..|ids|] == ids;
  }

  /** A turn of the loop before any throw is one BulkStep. */
  lemma BulkNextFresh(acc: (map<PostId, PostMeta>, nat, bool), pid: PostId, course: Option<string>,
                      content: PostId -> string, codes: PostId -> seq<Shortcode>)
    requires !acc.2
    ensures var step := BulkStep(acc.0, pid, course, content, codes);
      BulkNext(acc, pid, course, content, codes) ==
        if step.None? then (acc.0, acc.1, true)
        else (step.value.0, if step.value.1 then acc.1 + 1 else acc.1, false)
  {
  }

  /** Once the loop has thrown, the later posts change nothing. */
  lemma {:induction false} BulkStopped(posts: map<PostId, PostMeta>, ids: seq<PostId>, k: nat, course: Option<string>,
                                       content: PostId -> string, codes: PostId -> seq<Shortcode>)
    requires k <= |ids| && Bulk(posts, ids[..k], course, content, codes).2
    ensures Bulk(posts, ids, course, content, codes) == Bulk(posts, ids[..k], course, content, codes)
  {
    if k < |ids| {
      assert ids[..|ids| - 1][..k] == ids[..k];
      BulkStopped(posts, ids[..|ids| - 1], k, course, content, codes);
    } else {
      assert ids[..k] == ids;
    }
  }

  /** A finished bulk action leaves every selected post completable, in the course when one is given, and no other post changed. */
  lemma {:induction false} BulkMeaning(posts: map<PostId, PostMeta>, ids: seq<PostId>, course: Option<string>,
                                       content: PostId -> string, codes: PostId -> seq<Shortcode>)
    ensures var (p, _, failed) := Bulk(posts, ids, course, content, codes);
      && (!failed ==> forall q :: q in ids ==> q in p && (course.Some? ==> p[q].course == course))
      && (forall q :: q !in ids ==> (q in p <==> q in posts) && (q in posts ==> p[q] == posts[q]))
  {
    if ids != [] {
      var init := ids[..|ids| - 1];
      BulkMeaning(posts, init, course, content, codes);
      assert ids == init + [ids[|ids| - 1]];
    }
  }
}

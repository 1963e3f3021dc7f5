/**
 * The list logic behind the public shortcodes: splitting a course
 * attribute into several courses, filtering posts by completion, the
 * navigation shortcodes (next, previous, next to complete, last completed)
 * and the ordinal suffix of the peer-pressure counter.
 */
module PublicLists {
  import opened Php
  import opened Common

  // ---------------------------------------------------------------------
  // Splitting a course attribute
  // ---------------------------------------------------------------------

  /** A character of the course attribute, or an escaped comma `\,` held aside while splitting. */
  datatype Tok = Ch(c: char) | Esc

  function Chars(s: string): (r: seq<Tok>)
    ensures |r| == |s|
    ensures forall i :: 0 <= i < |s| ==> r[i] == Ch(s[i])
  {
    if s == [] then [] else [Ch(s[0])] + Chars(s[1..])
  }

  /** `str_replace('\,', placeholder, $s)`, scanning left to right. */
  function Escape(s: string): seq<Tok> {
    if s == [] then []
    else if |s| >= 2 && s[0] == '\\' && s[1] == ',' then [Esc] + Escape(s[2..])
    else [Ch(s[0])] + Escape(s[1..])
  }

  /** `str_replace(", ", ",", $s)`, scanning left to right. */
  function DropSpaces(t: seq<Tok>): seq<Tok> {
    if t == [] then []
    else if |t| >= 2 && t[0] == Ch(',') && t[1] == Ch(' ') then [Ch(',')] + DropSpaces(t[2..])
    else [t[0]] + DropSpaces(t[1..])
  }

  function LowerToks(t: seq<Tok>): (r: seq<Tok>)
    ensures |r| == |t|
    ensures forall i :: 0 <= i < |t| ==> r[i] == (if t[i].Ch? then Ch(LowerChar(t[i].c)) else Esc)
  {
    if t == [] then [] else [if t[0].Ch? then Ch(LowerChar(t[0].c)) else Esc] + LowerToks(t[1..])
  }

  /** `explode(",", ...)` on tokens: only a real comma splits. */
  function SplitToks(t: seq<Tok>): (parts: seq<seq<Tok>>)
    ensures |parts| >= 1
  {
    if t == [] then [[]]
    else
      var rest := SplitToks(t[1..]);
      if t[0] == Ch(',') then [[]] + rest
      else [[t[0]] + rest[0]] + rest[1..]
  }

  /** Putting the held-aside commas back. */
  function Restore(t: seq<Tok>): (s: string)
    ensures |s| == |t|
  {
    if t == [] then [] else [if t[0].Esc? then ',' else t[0].c] + Restore(t[1..])
  }

  /**
   * The course splitting of `build_post_criteria`: a known course name is
   * kept whole; otherwise `\,` stays a literal comma, ", " becomes ",", the
   * text is lower-cased and split at the remaining commas.
   */
  function SplitCourses(course: string, courseNames: seq<string>): (courses: seq<string>)
    ensures |courses| >= 1
    ensures StripSlashes(course) in courseNames ==> courses == [StripSlashes(course)]
  {
    if StripSlashes(course) in courseNames then [StripSlashes(course)]
    else
      var parts := SplitToks(LowerToks(DropSpaces(Escape(course))));
      seq(|parts|, i requires 0 <= i < |parts| => Restore(parts[i]))
  }

  lemma {:induction false} EscapePlain(s: string)
    requires '\\' !in s
    ensures Escape(s) == Chars(s)
  {
    if s != [] {
      EscapePlain(s[1..]);
    }
  }

  /** No comma followed by a space. */
  predicate NoCommaSpace(s: string) {
    forall i :: 0 <= i < |s| - 1 ==> !(s[i] == ',' && s[i + 1] == ' ')
  }

  lemma {:induction false} DropSpacesPlain(s: string)
    requires NoCommaSpace(s)
    ensures DropSpaces(Chars(s)) == Chars(s)
  {
    if s != [] {
      NoCommaSpaceTail(s);
      DropSpacesPlain(s[1..]);
      assert Chars(s)[1..] == Chars(s[1..]);
    }
  }

  lemma {:induction false} SplitToksPlain(s: string)
    ensures SplitToks(Chars(s)) == seq(|Explode(',', s)|, i requires 0 <= i < |Explode(',', s)| => Chars(Explode(',', s)[i]))
  {
    if s != [] {
      SplitToksPlain(s[1..]);
      assert Chars(s)[1..] == Chars(s[1..]);
      var rest := Explode(',', s[1..]);
      if s[0] != ',' {
        assert Chars([s[0]] + rest[0]) == [Ch(s[0])] + Chars(rest[0]);
      }
    }
  }

  lemma {:induction false} RestoreChars(s: string)
    ensures Restore(Chars(s)) == s
  {
    if s != [] {
      RestoreChars(s[1..]);
      assert Chars(s)[1..] == Chars(s[1..]);
    }
  }

  /** Without backslashes and without ", ", splitting is `explode(',', strtolower($course))`. */
  lemma SplitCoursesPlain(course: string, courseNames: seq<string>)
    requires '\\' !in course && NoCommaSpace(course)
    requires course !in courseNames
    ensures SplitCourses(course, courseNames) == Explode(',', Lower(course))
  {
    EscapePlain(course);
    DropSpacesPlain(course);
    assert LowerToks(Chars(course)) == Chars(Lower(course));
    SplitToksPlain(Lower(course));
    var e := Explode(',', Lower(course));
    forall i | 0 <= i < |e| ensures Restore(Chars(e[i])) == e[i] {
      RestoreChars(e[i]);
    }
  }

  lemma {:induction false} EscapeAppendPlain(x: string, y: string)
    requires '\\' !in x
    ensures Escape(x + y) == Chars(x) + Escape(y)
  {
    if x != [] {
      assert (x + y)[1..] == x[1..] + y;
      EscapeAppendPlain(x[1..], y);
      assert Chars(x) == [Ch(x[0])] + Chars(x[1..]);
    } else {
      assert x + y == y;
    }
  }

  lemma NoCommaSpaceTail(s: string)
    requires s != [] && NoCommaSpace(s)
    ensures NoCommaSpace(s[1..])
  {
    forall i | 0 <= i < |s[1..]| - 1 ensures !(s[1..][i] == ',' && s[1..][i + 1] == ' ') {
      assert s[1..][i] == s[i + 1] && s[1..][i + 1] == s[i + 2];
    }
  }

  /** A token that does not start ", " passes through `str_replace(", ", ",", ...)` unchanged. */
  lemma DropSpacesCons(c: Tok, t: seq<Tok>)
    requires c != Ch(',') || t == [] || t[0] != Ch(' ')
    ensures DropSpaces([c] + t) == [c] + DropSpaces(t)
  {
    var u := [c] + t;
    assert u[0] == c && u[1..] == t;
    assert |u| >= 2 ==> u[1] == t[0];
  }

  lemma {:induction false} DropSpacesAppend(x: string, t: seq<Tok>)
    requires NoCommaSpace(x) && (t == [] || t[0] != Ch(' '))
    ensures DropSpaces(Chars(x) + t) == Chars(x) + DropSpaces(t)
  {
    if x != [] {
      NoCommaSpaceTail(x);
      DropSpacesAppend(x[1..], t);
      CharsConsAppend(x, t);
      CharsConsAppend(x, DropSpaces(t));
      NoCommaSpaceHead(x, t);
      DropSpacesCons(Ch(x[0]), Chars(x[1..]) + t);
    } else {
      assert Chars(x) + t == t;
    }
  }

  lemma CharsConsAppend(x: string, t: seq<Tok>)
    requires x != []
    ensures Chars(x) + t == [Ch(x[0])] + (Chars(x[1..]) + t)
  {
    assert Chars(x) == [Ch(x[0])] + Chars(x[1..]);
  }

  /** The first character of x never starts ", " with what follows it. */
  lemma NoCommaSpaceHead(x: string, t: seq<Tok>)
    requires x != [] && NoCommaSpace(x) && (t == [] || t[0] != Ch(' '))
    ensures var rest := Chars(x[1..]) + t; x[0] != ',' || rest == [] || rest[0] != Ch(' ')
  {
    var rest := Chars(x[1..]) + t;
    if |x| >= 2 {
      assert rest[0] == Ch(x[1]);
      assert !(x[0] == ',' && x[1] == ' ');
    } else {
      assert rest == t;
    }
  }

  /** `str_replace(", ", ",", $s)` on plain text, scanning left to right. */
  function CommaSpaceToComma(s: string): string {
    if s == [] then []
    else if |s| >= 2 && s[0] == ',' && s[1] == ' ' then "," + CommaSpaceToComma(s[2..])
    else [s[0]] + CommaSpaceToComma(s[1..])
  }

  /** On plain characters the token replacement is the text replacement. */
  lemma {:induction false} DropSpacesChars(s: string)
    ensures DropSpaces(Chars(s)) == Chars(CommaSpaceToComma(s))
  {
    if s != [] {
      var t := Chars(s);
      if |s| >= 2 && s[0] == ',' && s[1] == ' ' {
        assert t[2..] == Chars(s[2..]);
        DropSpacesChars(s[2..]);
        assert Chars("," + CommaSpaceToComma(s[2..])) == [Ch(',')] + Chars(CommaSpaceToComma(s[2..]));
      } else {
        assert t[1..] == Chars(s[1..]);
        DropSpacesChars(s[1..]);
        assert Chars([s[0]] + CommaSpaceToComma(s[1..])) == [Ch(s[0])] + Chars(CommaSpaceToComma(s[1..]));
      }
    }
  }

  /**
   * Without backslashes, a course attribute that is not a known name splits
   * like `explode(',', strtolower(str_replace(", ", ",", $course)))`.
   */
  lemma SplitCoursesCommaSpace(course: string, courseNames: seq<string>)
    requires '\\' !in course
    requires course !in courseNames
    ensures SplitCourses(course, courseNames) == Explode(',', Lower(CommaSpaceToComma(course)))
  {
    var plain := CommaSpaceToComma(course);
    EscapePlain(course);
    DropSpacesChars(course);
    LowerToksChars(plain);
    SplitToksPlain(Lower(plain));
    var e := Explode(',', Lower(plain));
    forall i | 0 <= i < |e| ensures Restore(Chars(e[i])) == e[i] {
      RestoreChars(e[i]);
    }
  }

  /** Comma-free text passes through the ", " replacement unchanged. */
  lemma {:induction false} CommaSpaceToCommaPrefix(x: string, rest: string)
    requires ',' !in x
    ensures CommaSpaceToComma(x + rest) == x + CommaSpaceToComma(rest)
  {
    if x != [] {
      assert (x + rest)[1..] == x[1..] + rest;
      CommaSpaceToCommaPrefix(x[1..], rest);
      assert x == [x[0]] + x[1..];
    } else {
      assert x + rest == rest;
    }
  }

  /** "a, b" names the same courses as "a,b". */
  lemma SplitCoursesSpaceAfterComma(x: string, y: string, courseNames: seq<string>)
    requires '\\' !in x && '\\' !in y && ',' !in x
    requires y == [] || y[0] != ' '
    requires x + ", " + y !in courseNames && x + "," + y !in courseNames
    ensures SplitCourses(x + ", " + y, courseNames) == SplitCourses(x + "," + y, courseNames)
  {
    var a, b := x + ", " + y, x + "," + y;
    assert CommaSpaceToComma(a) == CommaSpaceToComma(b) by {
      assert a == x + (", " + y) && b == x + ("," + y);
      CommaSpaceToCommaPrefix(x, ", " + y);
      CommaSpaceToCommaPrefix(x, "," + y);
      CommaSpaceHead(y);
    }
    SplitCoursesCommaSpace(a, courseNames);
    SplitCoursesCommaSpace(b, courseNames);
  }

  /** The replacement turns a leading ", " into "," and keeps a leading "," not followed by a space. */
  lemma CommaSpaceHead(y: string)
    requires y == [] || y[0] != ' '
    ensures CommaSpaceToComma(", " + y) == "," + CommaSpaceToComma(y)
    ensures CommaSpaceToComma("," + y) == "," + CommaSpaceToComma(y)
  {
    assert (", " + y)[2..] == y;
    assert ("," + y)[1..] == y;
  }

  /** An escaped comma inside a name stays a literal comma: "A\, B" is the one course "a, b". */
  lemma SplitCoursesEscaped(a: string, b: string, courseNames: seq<string>)
    requires '\\' !in a && '\\' !in b && ',' !in a && ',' !in b
    requires StripSlashes(a + "\\," + b) !in courseNames
    ensures SplitCourses(a + "\\," + b, courseNames) == [Lower(a) + "," + Lower(b)]
  {
    var course := a + "\\," + b;
    var t := Chars(a) + [Esc] + Chars(b);
    EscapeEscaped(a, b);
    DropSpacesEscaped(a, b);
    LowerEscaped(a, b);
    var lt := Chars(Lower(a)) + [Esc] + Chars(Lower(b));
    assert LowerToks(DropSpaces(Escape(course))) == lt;
    NoCommaAfterLower(a, b);
    SplitToksNoComma(lt);
    RestoreEscaped(Lower(a), Lower(b));
    var parts := SplitToks(lt);
    assert SplitCourses(course, courseNames) == seq(|parts|, i requires 0 <= i < |parts| => Restore(parts[i]));
  }

  lemma EscapeEscaped(a: string, b: string)
    requires '\\' !in a && '\\' !in b
    ensures Escape(a + "\\," + b) == Chars(a) + [Esc] + Chars(b)
  {
    var y := "\\," + b;
    assert Escape(a + "\\," + b) == Chars(a) + Escape(y) by {
      assert a + "\\," + b == a + y;
      EscapeAppendPlain(a, y);
    }
    assert Escape(y) == [Esc] + Chars(b) by {
      EscapeHead(b);
      EscapePlain(b);
    }
    assert Chars(a) + ([Esc] + Chars(b)) == Chars(a) + [Esc] + Chars(b);
  }

  /** A leading `\,` becomes the held-aside comma. */
  lemma EscapeHead(b: string)
    ensures Escape("\\," + b) == [Esc] + Escape(b)
  {
    var y := "\\," + b;
    assert y[0] == '\\' && y[1] == ',' && y[2..] == b;
  }

  lemma DropSpacesEscaped(a: string, b: string)
    requires ',' !in a && ',' !in b
    ensures DropSpaces(Chars(a) + [Esc] + Chars(b)) == Chars(a) + [Esc] + Chars(b)
  {
    assert NoCommaSpace(a) && NoCommaSpace(b);
    DropSpacesAppend(a, [Esc] + Chars(b));
    DropSpacesCons(Esc, Chars(b));
    DropSpacesPlain(b);
    assert Chars(a) + [Esc] + Chars(b) == Chars(a) + ([Esc] + Chars(b));
  }

  lemma NoCommaAfterLower(a: string, b: string)
    requires ',' !in a && ',' !in b
    ensures Ch(',') !in Chars(Lower(a)) + [Esc] + Chars(Lower(b))
  {
    assert ',' !in Lower(a) by {
      forall i | 0 <= i < |a| ensures Lower(a)[i] != ',' {
        assert a[i] != ',';
      }
    }
    assert ',' !in Lower(b) by {
      forall i | 0 <= i < |b| ensures Lower(b)[i] != ',' {
        assert b[i] != ',';
      }
    }
  }

  lemma LowerEscaped(a: string, b: string)
    ensures LowerToks(Chars(a) + [Esc] + Chars(b)) == Chars(Lower(a)) + [Esc] + Chars(Lower(b))
  {
    var x := Chars(a) + [Esc];
    LowerToksAppend(x, Chars(b));
    LowerToksAppend(Chars(a), [Esc]);
    LowerToksChars(a);
    LowerToksChars(b);
    LowerToksEsc();
    assert LowerToks(x) == Chars(Lower(a)) + [Esc];
  }

  lemma LowerToksEsc()
    ensures LowerToks([Esc]) == [Esc]
  {
    assert LowerToks([Esc])[0] == Esc;
  }

  lemma {:induction false} LowerToksAppend(x: seq<Tok>, y: seq<Tok>)
    ensures LowerToks(x + y) == LowerToks(x) + LowerToks(y)
  {
    if x != [] {
      assert (x + y)[1..] == x[1..] + y;
      LowerToksAppend(x[1..], y);
    } else {
      assert x + y == y;
    }
  }

  lemma LowerToksChars(s: string)
    ensures LowerToks(Chars(s)) == Chars(Lower(s))
  {
    assert forall i :: 0 <= i < |s| ==> LowerToks(Chars(s))[i] == Chars(Lower(s))[i];
  }

  lemma {:induction false} SplitToksNoComma(t: seq<Tok>)
    requires Ch(',') !in t
    ensures SplitToks(t) == [t]
  {
    if t != [] {
      SplitToksNoComma(t[1..]);
      assert [t[0]] + t[1..] == t;
    }
  }

  lemma RestoreEscaped(a: string, b: string)
    ensures Restore(Chars(a) + [Esc] + Chars(b)) == a + "," + b
  {
    RestoreAppend(Chars(a) + [Esc], Chars(b));
    RestoreAppend(Chars(a), [Esc]);
    RestoreChars(a);
    RestoreChars(b);
    assert Restore([Esc]) == ",";
  }

  lemma {:induction false} RestoreAppend(x: seq<Tok>, y: seq<Tok>)
    ensures Restore(x + y) == Restore(x) + Restore(y)
  {
    if x != [] {
      assert (x + y)[1..] == x[1..] + y;
      RestoreAppend(x[1..], y);
    } else {
      assert x + y == y;
    }
  }

  /** Every course the split yields is lower-case (a known course name is kept as written). */
  lemma SplitCoursesLower(course: string, courseNames: seq<string>)
    requires StripSlashes(course) !in courseNames
    ensures forall i :: 0 <= i < |SplitCourses(course, courseNames)| ==>
      Lower(SplitCourses(course, courseNames)[i]) == SplitCourses(course, courseNames)[i]
  {
    var lt := LowerToks(DropSpaces(Escape(course)));
    assert LowerTokens(lt);
    SplitToksLower(lt);
    var parts := SplitToks(lt);
    forall i | 0 <= i < |parts| ensures Lower(Restore(parts[i])) == Restore(parts[i]) {
      RestoreLower(parts[i]);
    }
  }

  predicate LowerTokens(t: seq<Tok>) {
    forall i :: 0 <= i < |t| ==> t[i].Ch? ==> LowerChar(t[i].c) == t[i].c
  }

  lemma {:induction false} SplitToksLower(t: seq<Tok>)
    requires LowerTokens(t)
    ensures forall i :: 0 <= i < |SplitToks(t)| ==> LowerTokens(SplitToks(t)[i])
  {
    if t != [] {
      assert LowerTokens(t[1..]) by {
        forall i | 0 <= i < |t[1..]| ensures t[1..][i].Ch? ==> LowerChar(t[1..][i].c) == t[1..][i].c {
          assert t[1..][i] == t[i + 1];
        }
      }
      SplitToksLower(t[1..]);
      var rest := SplitToks(t[1..]);
      if t[0] != Ch(',') {
        var first := [t[0]] + rest[0];
        assert LowerTokens(first) by {
          forall i | 0 <= i < |first| ensures first[i].Ch? ==> LowerChar(first[i].c) == first[i].c {
            if i > 0 { assert first[i] == rest[0][i - 1]; }
          }
        }
      }
    }
  }

  lemma {:induction false} RestoreLower(t: seq<Tok>)
    requires LowerTokens(t)
    ensures Lower(Restore(t)) == Restore(t)
  {
    if t != [] {
      assert LowerTokens(t[1..]) by {
        forall i | 0 <= i < |t[1..]| ensures t[1..][i].Ch? ==> LowerChar(t[1..][i].c) == t[1..][i].c {
          assert t[1..][i] == t[i + 1];
        }
      }
      RestoreLower(t[1..]);
      var r := Restore(t);
      assert r[1..] == Restore(t[1..]);
    }
  }

  // ---------------------------------------------------------------------
  // Filtering posts by completion
  // ---------------------------------------------------------------------

  /** Whether the user's activity has a 'completed' key for this post id. */
  predicate HasCompleted(act: Activity, id: PostId) {
    id in act && HasCompletedKey(act[id])
  }

  /** A post survives the `completed` attribute: 'false' drops completed posts, 'true' drops the others. */
  predicate Keeps(act: Activity, id: PostId, flag: string) {
    if HasCompleted(act, id) then flag != "false" else flag != "true"
  }

  /** The posts left by the `completed` filter of `build_post_criteria`, in their order. */
  function Filtered(ids: seq<PostId>, act: Activity, flag: Option<string>): (r: seq<PostId>)
    ensures |r| <= |ids|
    ensures forall x :: x in r ==> x in ids
  {
    if flag.None? || ids == [] then ids
    else
      var init := Filtered(ids[..|ids| - 1], act, flag);
      var last := ids[|ids| - 1];
      if Keeps(act, last, flag.value) then init + [last] else init
  }

  /** The filter loop, dropping entries one index at a time. */
  method FilterByCompletion(ids: seq<PostId>, act: Activity, flag: Option<string>) returns (r: seq<PostId>)
    ensures r == Filtered(ids, act, flag)
  {
    if flag.None? {
      return ids;
    }
    r := [];
    var i := 0;
    while i < |ids|
      invariant 0 <= i <= |ids|
      invariant r == Filtered(ids[..i], act, flag)
    {
      assert ids[..i + 1][..i] == ids[..i];
      if Keeps(act, ids[i], flag.value) {
        r := r + [ids[i]];
      }
      i := i + 1;
    }
    assert ids[..i] == ids;
  }

  /** 'true' keeps exactly the completed posts, 'false' exactly the others, anything else keeps all. */
  lemma {:induction false} FilteredMeaning(ids: seq<PostId>, act: Activity, flag: Option<string>)
    ensures flag == Some("true") ==> forall x :: x in Filtered(ids, act, flag) <==> x in ids && HasCompleted(act, x)
    ensures flag == Some("false") ==> forall x :: x in Filtered(ids, act, flag) <==> x in ids && !HasCompleted(act, x)
    ensures flag.None? || flag.value !in {"true", "false"} ==> Filtered(ids, act, flag) == ids
  {
    if flag.Some? && ids != [] {
      var init := ids[..|ids| - 1];
      FilteredMeaning(init, act, flag);
      assert ids == init + [ids[|ids| - 1]];
    }
  }

  // ---------------------------------------------------------------------
  // Navigation over an ordered list of page ids
  // ---------------------------------------------------------------------

  /** The page after the first occurrence of `post` that has a successor. */
  function NextOf(ids: seq<PostId>, post: PostId): Option<PostId> {
    if |ids| < 2 then None
    else if ids[0] == post then Some(ids[1])
    else NextOf(ids[1..], post)
  }

  /** The page before the first occurrence of `post` that has a predecessor. */
  function PrevOf(ids: seq<PostId>, post: PostId): Option<PostId> {
    if |ids| < 2 then None
    else if ids[1] == post then Some(ids[0])
    else PrevOf(ids[1..], post)
  }

  /** `next_page_shortcode`'s loop: stops at the first match that has a next element. */
  method NextPage(ids: seq<PostId>, post: PostId) returns (r: Option<PostId>)
    ensures r == NextOf(ids, post)
  {
    var i := 0;
    while i < |ids|
      invariant 0 <= i <= |ids|
      invariant NextOf(ids, post) == if |ids| - i >= 1 then NextOf(ids[i..], post) else None
    {
      if ids[i] == post && i + 1 < |ids| {
        return Some(ids[i + 1]);
      }
      assert |ids[i..]| >= 2 ==> ids[i..][1..] == ids[i + 1..];
      i := i + 1;
    }
    return None;
  }

  /** `previous_page_shortcode`'s loop: stops at the first match that has a previous element. */
  method PreviousPage(ids: seq<PostId>, post: PostId) returns (r: Option<PostId>)
    ensures r == PrevOf(ids, post)
  {
    var i := 0;
    while i < |ids|
      invariant 0 <= i <= |ids|
      invariant PrevOf(ids, post) == if i == 0 then PrevOf(ids, post) else if |ids| - i >= 1 then PrevOf(ids[i - 1..], post) else None
      invariant forall j :: 0 < j < i ==> ids[j] != post
    {
      if ids[i] == post && i >= 1 {
        return Some(ids[i - 1]);
      }
      if i >= 1 {
        assert |ids[i - 1..]| >= 2 ==> ids[i - 1..][1..] == ids[i..];
      }
      i := i + 1;
    }
    return None;
  }

  /** `i` is the first index before the last one where `post` occurs. */
  predicate FirstBeforeLast(ids: seq<PostId>, post: PostId, i: int) {
    0 <= i < |ids| - 1 && ids[i] == post && forall j :: 0 <= j < i ==> ids[j] != post
  }

  /** `i` is the first index after the first one where `post` occurs. */
  predicate FirstAfterFirst(ids: seq<PostId>, post: PostId, i: int) {
    1 <= i < |ids| && ids[i] == post && forall j :: 1 <= j < i ==> ids[j] != post
  }

  /** The next page is the one right after the first occurrence of `post` that is not last. */
  lemma {:induction false} NextOfIndex(ids: seq<PostId>, post: PostId)
    ensures NextOf(ids, post).Some? ==>
      exists i :: FirstBeforeLast(ids, post, i) && NextOf(ids, post).value == ids[i + 1]
    ensures NextOf(ids, post).None? <==> forall i :: 0 <= i < |ids| - 1 ==> ids[i] != post
  {
    if |ids| >= 2 && ids[0] == post {
      assert FirstBeforeLast(ids, post, 0);
    } else if |ids| >= 2 {
      NextOfIndex(ids[1..], post);
      if NextOf(ids, post).Some? {
        var i :| FirstBeforeLast(ids[1..], post, i) && NextOf(ids[1..], post).value == ids[1..][i + 1];
        assert forall j :: 1 <= j < i + 1 ==> ids[j] == ids[1..][j - 1];
        assert FirstBeforeLast(ids, post, i + 1);
      } else {
        assert forall i :: 1 <= i < |ids| - 1 ==> ids[i] == ids[1..][i - 1];
      }
    }
  }

  /** The previous page is the one right before the first occurrence of `post` that is not first. */
  lemma {:induction false} PrevOfIndex(ids: seq<PostId>, post: PostId)
    ensures PrevOf(ids, post).Some? ==>
      exists i :: FirstAfterFirst(ids, post, i) && PrevOf(ids, post).value == ids[i - 1]
    ensures PrevOf(ids, post).None? <==> forall i :: 1 <= i < |ids| ==> ids[i] != post
  {
    if |ids| >= 2 && ids[1] == post {
      assert FirstAfterFirst(ids, post, 1);
    } else if |ids| >= 2 {
      PrevOfIndex(ids[1..], post);
      if PrevOf(ids, post).Some? {
        var i :| FirstAfterFirst(ids[1..], post, i) && PrevOf(ids[1..], post).value == ids[1..][i - 1];
        assert forall j :: 2 <= j < i + 1 ==> ids[j] == ids[1..][j - 1];
        assert FirstAfterFirst(ids, post, i + 1);
      } else {
        assert forall i :: 2 <= i < |ids| ==> ids[i] == ids[1..][i - 1];
      }
    }
  }

  /** In a list without repeats, previous undoes next, the last page has no next and the first no previous. */
  lemma NextPrevInverse(ids: seq<PostId>, post: PostId)
    requires forall i, j :: 0 <= i < j < |ids| ==> ids[i] != ids[j]
    ensures NextOf(ids, post).Some? ==> PrevOf(ids, NextOf(ids, post).value) == Some(post)
    ensures ids != [] ==> NextOf(ids, ids[|ids| - 1]).None? && PrevOf(ids, ids[0]).None?
  {
    NextOfIndex(ids, post);
    if NextOf(ids, post).Some? {
      var q := NextOf(ids, post).value;
      var i :| FirstBeforeLast(ids, post, i) && q == ids[i + 1];
      PrevOfIndex(ids, q);
      assert ids[i + 1] == q;
      var k :| FirstAfterFirst(ids, q, k) && PrevOf(ids, q).value == ids[k - 1];
      assert k == i + 1;
    }
    if ids != [] {
      NextOfIndex(ids, ids[|ids| - 1]);
      PrevOfIndex(ids, ids[0]);
    }
  }

  datatype NextToCompleteOutcome = NoPages | Next(page: PostId) | AllCompleted

  /** `next_to_complete_shortcode`: the first page in order whose status is not completed. */
  method NextToComplete(pages: seq<PostId>, posts: map<PostId, PostMeta>, done: map<ButtonId, Value>)
    returns (out: NextToCompleteOutcome)
    ensures out == NoPages <==> |pages| == 0
    ensures out.Next? ==> exists i :: (0 <= i < |pages| && pages[i] == out.page &&
      PostStatus(posts, pages[i], done) != Completed &&
      forall j :: 0 <= j < i ==> PostStatus(posts, pages[j], done) == Completed)
    ensures out == AllCompleted ==> forall i :: 0 <= i < |pages| ==> PostStatus(posts, pages[i], done) == Completed
  {
    if |pages| < 1 {
      return NoPages;
    }
    var i := 0;
    while i < |pages|
      invariant 0 <= i <= |pages|
      invariant forall j :: 0 <= j < i ==> PostStatus(posts, pages[j], done) == Completed
    {
      var st := PostCompletionStatus(posts, pages[i], done);
      if st != Completed {
        return Next(pages[i]);
      }
      i := i + 1;
    }
    return AllCompleted;
  }


  // ---------------------------------------------------------------------
  // Last completed page
  // ---------------------------------------------------------------------

  /** Completion values ordered as `>` orders the stored date strings; a value without a time ranks lowest. */
  function Rank(s: Stamp): nat {
    if s.At? then s.time + 1 else 0
  }

  /** A button's completion value, when it is set and not empty. */
  function DoneStamp(done: map<ButtonId, Value>, b: ButtonId): (r: Option<Stamp>)
    ensures r.Some? <==> b in done && IsDone(done[b])
  {
    if b in done && IsDone(done[b]) then Some(done[b].entry.completed.value) else None
  }

  /** The latest completion among a post's buttons; a later button replaces only when strictly later. */
  function LatestStamp(bs: seq<ButtonId>, done: map<ButtonId, Value>): (r: Option<Stamp>)
    ensures r.None? <==> forall i :: 0 <= i < |bs| ==> DoneStamp(done, bs[i]).None?
    ensures r.Some? ==> exists i :: 0 <= i < |bs| && DoneStamp(done, bs[i]) == r
    ensures r.Some? ==> forall i :: 0 <= i < |bs| && DoneStamp(done, bs[i]).Some? ==>
      Rank(DoneStamp(done, bs[i]).value) <= Rank(r.value)
  {
    if bs == [] then None
    else
      var init := bs[..|bs| - 1];
      var cur := LatestStamp(init, done);
      var st := DoneStamp(done, bs[|bs| - 1]);
      assert forall i :: 0 <= i < |init| ==> init[i] == bs[i];
      if st.Some? && (cur.None? || Rank(st.value) > Rank(cur.value)) then st else cur
  }

  /** The inner loop of `last_completed_shortcode` over a post's buttons. */
  method BestStamp(bs: seq<ButtonId>, done: map<ButtonId, Value>) returns (r: Option<Stamp>)
    ensures r == LatestStamp(bs, done)
  {
    r := None;
    var i := 0;
    while i < |bs|
      invariant 0 <= i <= |bs|
      invariant r == LatestStamp(bs[..i], done)
    {
      assert bs[..i + 1][..i] == bs[..i];
      var st := DoneStamp(done, bs[i]);
      if st.Some? && (r.None? || Rank(st.value) > Rank(r.value)) {
        r := st;
      }
      i := i + 1;
    }
    assert bs[..i] == bs;
  }

  /** The course a post belongs to: its own, or the site's when unset or 'true'. */
  function CourseOf(meta: PostMeta, siteName: string): string {
    if meta.course.None? || meta.course.value == "true" then siteName else meta.course.value
  }

  /** Whether a post is in the requested course ('all' takes every post), compared lower-cased. */
  predicate InCourse(meta: PostMeta, course: string, siteName: string) {
    Lower(course) == "all" || Lower(CourseOf(meta, siteName)) == Lower(course)
  }

  /** The completion time recorded for a post: in the course, completed, and with a set completion value. */
  ghost function PostStamp(posts: map<PostId, PostMeta>, post: PostId, course: string, siteName: string,
                           done: map<ButtonId, Value>): Option<Stamp>
    requires post in posts
  {
    var meta := posts[post];
    if !InCourse(meta, course, siteName) || PostStatus(posts, post, done) != Completed then None
    else if meta.buttons.Some? then LatestStamp(Values(meta.buttons.value), done)
    else DoneStamp(done, post)
  }

  /** The completion time of each post of the order, in order. */
  ghost function Stamps(posts: map<PostId, PostMeta>, order: seq<PostId>, course: string, siteName: string,
                        done: map<ButtonId, Value>): (ss: seq<Option<Stamp>>)
    requires forall i :: 0 <= i < |order| ==> order[i] in posts
    ensures |ss| == |order|
    ensures forall i :: 0 <= i < |order| ==> ss[i] == PostStamp(posts, order[i], course, siteName, done)
  {
    seq(|order|, i requires 0 <= i < |order| => PostStamp(posts, order[i], course, siteName, done))
  }

  /** The `$completed_posts` array: each post with a completion time, paired with it, in order. */
  function Collected(ids: seq<PostId>, ss: seq<Option<Stamp>>): seq<(PostId, Stamp)>
    requires |ids| == |ss|
  {
    if ids == [] then []
    else
      var init := Collected(ids[..|ids| - 1], ss[..|ss| - 1]);
      var st := ss[|ss| - 1];
      if st.Some? then init + [(ids[|ids| - 1], st.value)] else init
  }

  lemma CollectedSnoc(ids: seq<PostId>, ss: seq<Option<Stamp>>, p: PostId, st: Option<Stamp>)
    requires |ids| == |ss|
    ensures Collected(ids + [p], ss + [st]) == Collected(ids, ss) + (if st.Some? then [(p, st.value)] else [])
  {
    assert (ids + [p])[..|ids|] == ids && (ss + [st])[..|ss|] == ss;
  }

  /** The collection over the first i + 1 posts extends the one over the first i. */
  lemma CollectedStep(ids: seq<PostId>, ss: seq<Option<Stamp>>, i: nat)
    requires i < |ids| == |ss|
    ensures Collected(ids[..i + 1], ss[..i + 1]) ==
      Collected(ids[..i], ss[..i]) + (if ss[i].Some? then [(ids[i], ss[i].value)] else [])
  {
    assert ids[..i + 1] == ids[..i] + [ids[i]];
    assert ss[..i + 1] == ss[..i] + [ss[i]];
    CollectedSnoc(ids[..i], ss[..i], ids[i], ss[i]);
  }

  /** `arsort` followed by the first key: a latest entry, the earliest of them on ties. */
  function FirstMax(cs: seq<(PostId, Stamp)>): (r: Option<(PostId, Stamp)>)
    ensures r.None? <==> cs == []
    ensures r.Some? ==> forall i :: 0 <= i < |cs| ==> Rank(cs[i].1) <= Rank(r.value.1)
    ensures r.Some? ==> exists i :: (0 <= i < |cs| && cs[i] == r.value &&
      forall j :: 0 <= j < i ==> Rank(cs[j].1) < Rank(r.value.1))
  {
    if cs == [] then None
    else
      var init := cs[..|cs| - 1];
      var cur := FirstMax(init);
      var c := cs[|cs| - 1];
      assert forall i :: 0 <= i < |init| ==> init[i] == cs[i];
      if cur.None? || Rank(c.1) > Rank(cur.value.1) then Some(c) else cur
  }

  /** The most recently completed post, the first in order on ties (see LatestMeaning). */
  function Latest(ids: seq<PostId>, ss: seq<Option<Stamp>>): Option<(PostId, Stamp)>
    requires |ids| == |ss|
  {
    if ids == [] then None
    else
      var cur := Latest(ids[..|ids| - 1], ss[..|ss| - 1]);
      var st := ss[|ss| - 1];
      if st.Some? && (cur.None? || Rank(st.value) > Rank(cur.value.1)) then Some((ids[|ids| - 1], st.value))
      else cur
  }

  /** Post i was completed at t, and every earlier post strictly before t. */
  predicate FirstAt(ids: seq<PostId>, ss: seq<Option<Stamp>>, i: int, r: (PostId, Stamp))
    requires |ids| == |ss|
  {
    0 <= i < |ids| && ids[i] == r.0 && ss[i] == Some(r.1) &&
    forall j :: 0 <= j < i && ss[j].Some? ==> Rank(ss[j].value) < Rank(r.1)
  }

  /**
   * There is a latest post exactly when some post has a completion time; it
   * is completed no earlier than any other post, and it is the first post in
   * order with that time.
   */
  lemma {:induction false} LatestMeaning(ids: seq<PostId>, ss: seq<Option<Stamp>>)
    requires |ids| == |ss|
    ensures Latest(ids, ss).None? <==> forall i :: 0 <= i < |ss| ==> ss[i].None?
    ensures Latest(ids, ss).Some? ==>
      forall i :: 0 <= i < |ss| && ss[i].Some? ==> Rank(ss[i].value) <= Rank(Latest(ids, ss).value.1)
    ensures Latest(ids, ss).Some? ==> exists i :: FirstAt(ids, ss, i, Latest(ids, ss).value)
  {
    if ids != [] {
      var n := |ids| - 1;
      var ii, si := ids[..n], ss[..n];
      LatestMeaning(ii, si);
      var cur := Latest(ii, si);
      var r := Latest(ids, ss);
      assert forall i :: 0 <= i < n ==> si[i] == ss[i];
      if r.Some? {
        if ss[n].Some? && (cur.None? || Rank(ss[n].value) > Rank(cur.value.1)) {
          assert FirstAt(ids, ss, n, r.value);
        } else {
          var k :| FirstAt(ii, si, k, cur.value);
          assert FirstAt(ids, ss, k, r.value);
        }
      }
    }
  }

  /** Collecting the completed posts and then taking the first maximum gives the latest post. */
  lemma {:induction false} CollectedFirstMax(ids: seq<PostId>, ss: seq<Option<Stamp>>)
    requires |ids| == |ss|
    ensures FirstMax(Collected(ids, ss)) == Latest(ids, ss)
  {
    if ids != [] {
      var n := |ids| - 1;
      CollectedFirstMax(ids[..n], ss[..n]);
      var cs := Collected(ids[..n], ss[..n]);
      if ss[n].Some? {
        assert (cs + [(ids[n], ss[n].value)])[..|cs|] == cs;
      }
    }
  }

  /** The course a `course` attribute asks for: 'all' when absent or empty. */
  function RequestedCourse(course: Option<string>): (r: string)
    ensures course.Some? && !EmptyStr(course.value) ==> r == course.value
  {
    if course.None? || EmptyStr(course.value) then "all" else course.value
  }

  /** One post of the outer loop of `last_completed_shortcode`: its completion time, if it is collected. */
  method PostBest(posts: map<PostId, PostMeta>, p: PostId, c: string, siteName: string,
                  done: map<ButtonId, Value>) returns (best: Option<Stamp>)
    requires p in posts
    ensures best == PostStamp(posts, p, c, siteName, done)
  {
    best := None;
    var meta := posts[p];
    if InCourse(meta, c, siteName) {
      var st := PostCompletionStatus(posts, p, done);
      if st == Completed {
        if meta.buttons.Some? {
          best := BestStamp(Values(meta.buttons.value), done);
        } else {
          best := DoneStamp(done, p);
        }
      }
    }
  }

  /** The outer loop of `last_completed_shortcode`: the completed posts with their times. */
  method CollectCompleted(posts: map<PostId, PostMeta>, order: seq<PostId>, c: string, siteName: string,
                          done: map<ButtonId, Value>) returns (collected: seq<(PostId, Stamp)>)
    requires forall i :: 0 <= i < |order| ==> order[i] in posts
    ensures collected == Collected(order, Stamps(posts, order, c, siteName, done))
  {
    ghost var ss := Stamps(posts, order, c, siteName, done);
    collected := [];
    var i := 0;
    while i < |order|
      invariant 0 <= i <= |order|
      invariant collected == Collected(order[..i], ss[..i])
    {
      CollectedStep(order, ss, i);
      var best := PostBest(posts, order[i], c, siteName, done);
      assert best == ss[i];
      if best.Some? {
        collected := collected + [(order[i], best.value)];
      }
      i := i + 1;
    }
    assert order[..i] == order && ss[..i] == ss;
  }

  /** `arsort` and `key()`: the first of the latest collected posts. */
  method Top(collected: seq<(PostId, Stamp)>) returns (top: Option<(PostId, Stamp)>)
    ensures top == FirstMax(collected)
  {
    top := None;
    var j := 0;
    while j < |collected|
      invariant 0 <= j <= |collected|
      invariant top == FirstMax(collected[..j])
    {
      assert collected[..j + 1][..j] == collected[..j];
      if top.None? || Rank(collected[j].1) > Rank(top.value.1) {
        top := Some(collected[j]);
      }
      j := j + 1;
    }
    assert collected[..j] == collected;
  }

  /**
   * `last_completed_shortcode`: the id of the most recently completed page of the
   * requested course, or None when the user has completed none.
   */
  method LastCompleted(posts: map<PostId, PostMeta>, order: seq<PostId>, course: Option<string>,
                       siteName: string, done: map<ButtonId, Value>) returns (r: Option<PostId>)
    requires forall i :: 0 <= i < |order| ==> order[i] in posts
    ensures var l := Latest(order, Stamps(posts, order, RequestedCourse(course), siteName, done));
      r == if l.Some? then Some(l.value.0) else None
  {
    var c := RequestedCourse(course);
    var collected := CollectCompleted(posts, order, c, siteName, done);
    var top := Top(collected);
    CollectedFirstMax(order, Stamps(posts, order, c, siteName, done));
    r := if top.Some? then Some(top.value.0) else None;
  }



  // ---------------------------------------------------------------------
  // Ordinal suffix
  // ---------------------------------------------------------------------

  /** The English ordinal suffix `peer_pressure_stats` appends to a count. */
  function OrdinalSuffix(n: nat): (r: string)
    ensures r in {"st", "nd", "rd", "th"}
  {
    var j := n % 100;
    if j > 10 && j < 14 then "th"
    else
      var k := j % 10;
      if k > 0 && k < 4 then ["st", "nd", "rd"][k - 1] else "th"
  }

  /** Each suffix, in terms of the last two digits. */
  lemma OrdinalSuffixMeaning(n: nat)
    ensures OrdinalSuffix(n) == "st" <==> n % 10 == 1 && n % 100 != 11
    ensures OrdinalSuffix(n) == "nd" <==> n % 10 == 2 && n % 100 != 12
    ensures OrdinalSuffix(n) == "rd" <==> n % 10 == 3 && n % 100 != 13
    ensures OrdinalSuffix(n) == "th" <==> n % 10 !in {1, 2, 3} || n % 100 in {11, 12, 13}
  {
    assert n % 100 % 10 == n % 10;
  }

  /** The suffix repeats every hundred. */
  lemma OrdinalSuffixPeriodic(n: nat)
    ensures OrdinalSuffix(n + 100) == OrdinalSuffix(n)
  {
    assert (n + 100) % 100 == n % 100;
  }
}
